/** Where the comparator is silent, and when rightly so. */
module DifferLimits {
  // An unchanged schema raises nothing.  And the sound fragment cannot simply be widened: for each
  // kind of change below the comparator is silent whatever schema it is made in, and an exact
  // condition says when the silence was right all the same.  DifferMisses has one pair of schemas
  // for each for which it was wrong, under every meaning.

  import opened Outcomes
  import opened Sorting
  import opened JsonSchema
  import opened SchemaDiffer
  import opened DifferSoundness
  import opened SchemaMeaning

  // ----- an unchanged schema

  /** Rules that can fire without anything having changed. */
  predicate FiresUnchanged(rule: Rule) {
    rule.DepthLimit? || rule.CyclicRef? || rule.UnresolvedRef? || rule.ShapeChanged?
  }

  ghost predicate Unchanged(cs: seq<Change>) {
    forall c :: c in cs ==> FiresUnchanged(c.rule)
  }

  /**
   Comparing a schema with itself never reports a change of any keyword: at most that the
   comparison could not go on, or that a combinator is no list.
   */
  lemma {:induction false} SelfComparisonFindsNoChange(scope: Scope, raw: Schema, pointer: Pointer, depth: nat)
    requires depth <= MAX_COMPARE_DEPTH + 1
    requires scope.oldReg == scope.newReg && scope.oldBase == scope.newBase && scope.oldVisited == scope.newVisited
    ensures Unchanged(Changes(scope, raw, raw, pointer, depth))
    decreases MAX_COMPARE_DEPTH + 1 - depth, 1
  {
    var r := ResolvePair(scope, raw, raw, pointer, depth);
    if r.Pair? {
      hide SlotChanges, ResolvePair, Part;
      SameResolution(scope, raw, pointer, depth);
      forall k: nat | k < PARTS ensures Unchanged(Part(r.scope, r.older, r.older, k, pointer, depth)) {
        SelfPart(r.scope, r.older, k, pointer, depth);
      }
      UnchangedParts(r.scope, r.older, PARTS, pointer, depth);
    }
  }

  lemma SameResolution(scope: Scope, raw: Schema, pointer: Pointer, depth: nat)
    requires scope.oldReg == scope.newReg && scope.oldBase == scope.newBase && scope.oldVisited == scope.newVisited
    requires ResolvePair(scope, raw, raw, pointer, depth).Pair?
    ensures var r := ResolvePair(scope, raw, raw, pointer, depth);
            && r.older == r.newer
            && r.scope.oldReg == r.scope.newReg && r.scope.oldBase == r.scope.newBase
            && r.scope.oldVisited == r.scope.newVisited
  {
  }

  lemma {:induction false} UnchangedParts(scope: Scope, s: Schema, k: nat, pointer: Pointer, depth: nat)
    requires s.ObjectSchema? && depth <= MAX_COMPARE_DEPTH
    requires forall i: nat :: i < k ==> Unchanged(Part(scope, s, s, i, pointer, depth))
    ensures Unchanged(FirstParts(scope, s, s, k, pointer, depth))
    decreases k
  {
    hide Part, FiresUnchanged;
    if k > 0 {
      UnchangedParts(scope, s, k - 1, pointer, depth);
      assert Unchanged(Part(scope, s, s, k - 1, pointer, depth));
    }
  }

  lemma {:induction false} SelfPart(scope: Scope, s: Schema, k: nat, pointer: Pointer, depth: nat)
    requires s.ObjectSchema? && depth <= MAX_COMPARE_DEPTH
    requires scope.oldReg == scope.newReg && scope.oldBase == scope.newBase && scope.oldVisited == scope.newVisited
    ensures Unchanged(Part(scope, s, s, k, pointer, depth))
    decreases MAX_COMPARE_DEPTH + 1 - depth, 0, k
  {
    hide SlotChanges;
    forall slots: seq<Slot> ensures Unchanged(SlotChanges(scope, s, s, slots, pointer, depth)) {
      SelfSlots(scope, s, slots, pointer, depth);
    }
    if k == 4 {
      NoMaxChanges(s.max, QUANTITIES, pointer);
    } else if k == 5 {
      NoMinChanges(s.min, QUANTITIES, pointer);
    } else if k == 6 {
      NothingToName(s.required - s.required);
    } else if k == 2 {
      assert Unchanged(SlotChanges(scope, s, s, SharedSlot(s, s, Extras), pointer, depth));
    } else if k == 9 {
      assert Unchanged(SlotChanges(scope, s, s, SharedSlot(s, s, Element), pointer, depth));
    } else {
      forall name ensures Unchanged(CombinatorPart(scope, s, s, name, pointer, depth)) {
        var c := CombinatorOf(s, name);
        assert Unchanged(SlotChanges(scope, s, s, SharedBranches(c, c, name), pointer, depth));
      }
    }
  }

  lemma NothingToName(s: set<Text>)
    requires s == {}
    ensures SortedTexts(s) == []
  {
    assert forall x :: x !in SortedTexts(s);
  }

  lemma {:induction false} NoMaxChanges(m: map<Quantity, real>, qs: seq<Quantity>, pointer: Pointer)
    ensures MaxChanges(m, m, qs, pointer) == []
  {
    if qs != [] {
      NoMaxChanges(m, qs[..|qs| - 1], pointer);
    }
  }

  lemma {:induction false} NoMinChanges(m: map<Quantity, real>, qs: seq<Quantity>, pointer: Pointer)
    ensures MinChanges(m, m, qs, pointer) == []
  {
    if qs != [] {
      NoMinChanges(m, qs[..|qs| - 1], pointer);
    }
  }

  lemma {:induction false} SelfSlots(scope: Scope, s: Schema, slots: seq<Slot>, pointer: Pointer, depth: nat)
    requires s.ObjectSchema? && depth <= MAX_COMPARE_DEPTH
    requires scope.oldReg == scope.newReg && scope.oldBase == scope.newBase && scope.oldVisited == scope.newVisited
    ensures Unchanged(SlotChanges(scope, s, s, slots, pointer, depth))
    decreases MAX_COMPARE_DEPTH + 1 - depth, 0, 0, |slots|
  {
    hide Changes, FiresUnchanged;
    if slots != [] {
      var slot := slots[|slots| - 1];
      SelfSlots(scope, s, slots[..|slots| - 1], pointer, depth);
      if Has(s, slot) {
        SelfComparisonFindsNoChange(scope, At(s, slot), pointer + [slot], depth + 1);
      }
    }
  }

  // ----- editing one keyword

  /** Apart from the keywords of one part, and the keywords never read, two objects are the same. */
  predicate SameOutside(k: nat, a: Schema, b: Schema) {
    && a.ObjectSchema? && b.ObjectSchema?
    && (k != 0 ==> a.types == b.types) && (k != 1 ==> a.enum == b.enum)
    && a.additional == b.additional
    && (k != 3 ==> a.pattern == b.pattern)
    && (k != 4 ==> a.max == b.max) && (k != 5 ==> a.min == b.min)
    && (k != 6 ==> a.required == b.required)
    && (k != 7 ==> a.properties == b.properties) && (k != 8 ==> a.patternProperties == b.patternProperties)
    && (k != 9 ==> a.items == b.items)
    && (k != 10 ==> a.oneOf == b.oneOf) && (k != 11 ==> a.anyOf == b.anyOf) && (k != 12 ==> a.allOf == b.allOf)
  }

  /** A slot reads nothing of its object but what stands there, and the closedness of both. */
  predicate SameSlot(a: Schema, b: Schema, slot: Slot) {
    Has(a, slot) == Has(b, slot) && (Has(a, slot) ==> At(a, slot) == At(b, slot))
  }

  lemma {:induction false} SameSlotsSameChanges(
      scope: Scope, o: Schema, n: Schema, o': Schema, n': Schema, slots: seq<Slot>, pointer: Pointer, depth: nat)
    requires o.ObjectSchema? && n.ObjectSchema? && o'.ObjectSchema? && n'.ObjectSchema? && depth <= MAX_COMPARE_DEPTH
    requires o.additional == o'.additional && n.additional == n'.additional
    requires forall slot :: slot in slots ==> SameSlot(o, o', slot) && SameSlot(n, n', slot)
    ensures SlotChanges(scope, o, n, slots, pointer, depth) == SlotChanges(scope, o', n', slots, pointer, depth)
    decreases |slots|
  {
    if slots == [] {
      NoSlotsNoChanges(scope, o, n, pointer, depth);
      NoSlotsNoChanges(scope, o', n', pointer, depth);
    } else {
      var init, slot := slots[..|slots| - 1], slots[|slots| - 1];
      SameSlotsSameChanges(scope, o, n, o', n', init, pointer, depth);
      SameSlotSameChanges(scope, o, n, o', n', slot, pointer, depth);
      LastSlot(scope, o, n, slots, pointer, depth);
      LastSlot(scope, o', n', slots, pointer, depth);
    }
  }

  lemma LastSlot(scope: Scope, o: Schema, n: Schema, slots: seq<Slot>, pointer: Pointer, depth: nat)
    requires o.ObjectSchema? && n.ObjectSchema? && depth <= MAX_COMPARE_DEPTH && slots != []
    ensures SlotChanges(scope, o, n, slots, pointer, depth)
         == SlotChanges(scope, o, n, slots[..|slots| - 1], pointer, depth)
          + OneSlotChanges(scope, o, n, slots[|slots| - 1], pointer, depth)
  {
    hide OneSlotChanges;
  }

  lemma SameSlotSameChanges(
      scope: Scope, o: Schema, n: Schema, o': Schema, n': Schema, slot: Slot, pointer: Pointer, depth: nat)
    requires o.ObjectSchema? && n.ObjectSchema? && o'.ObjectSchema? && n'.ObjectSchema? && depth <= MAX_COMPARE_DEPTH
    requires o.additional == o'.additional && n.additional == n'.additional
    requires SameSlot(o, o', slot) && SameSlot(n, n', slot)
    ensures OneSlotChanges(scope, o, n, slot, pointer, depth) == OneSlotChanges(scope, o', n', slot, pointer, depth)
  {
    hide Changes;
  }

  /** A part reads only its own keywords. */
  lemma OtherPartsSame(
      scope: Scope, o: Schema, n: Schema, o': Schema, n': Schema, edited: nat, k: nat, pointer: Pointer, depth: nat)
    requires SameOutside(edited, o, o') && SameOutside(edited, n, n') && k != edited && depth <= MAX_COMPARE_DEPTH
    ensures Part(scope, o, n, k, pointer, depth) == Part(scope, o', n', k, pointer, depth)
  {
    hide SlotChanges, TypeChanges, EnumChanges, RankChanges, PatternChanges, MaxChanges, MinChanges, RequiredChanges,
      ItemsChanges, CombinatorChanges, SortedTexts;
    if k == 2 {
      SameSlotsSameChanges(scope, o, n, o', n', SharedSlot(o, n, Extras), pointer, depth);
    } else if k == 7 {
      PropertySlotsAre(o, n);
      SameSlotsSameChanges(scope, o, n, o', n', PropertySlots(o, n), pointer, depth);
    } else if k == 8 {
      PropertySlotsAre(o, n);
      SameSlotsSameChanges(scope, o, n, o', n', PatternSlots(o, n), pointer, depth);
    } else if k == 9 {
      SameSlotsSameChanges(scope, o, n, o', n', SharedSlot(o, n, Element), pointer, depth);
    } else if 10 <= k <= 12 {
      var name := if k == 10 then OneOf else if k == 11 then AnyOf else AllOf;
      SameCombinators(scope, o, n, o', n', name, pointer, depth);
    }
  }

  lemma PropertySlotsAre(o: Schema, n: Schema)
    requires o.ObjectSchema? && n.ObjectSchema?
    ensures forall slot :: slot in PropertySlots(o, n) ==> slot.Property?
    ensures forall slot :: slot in PatternSlots(o, n) ==> slot.PatternProperty?
  {
    hide SortedTexts;
  }

  lemma SameCombinators(
      scope: Scope, o: Schema, n: Schema, o': Schema, n': Schema, name: CombinatorName, pointer: Pointer, depth: nat)
    requires o.ObjectSchema? && n.ObjectSchema? && o'.ObjectSchema? && n'.ObjectSchema? && depth <= MAX_COMPARE_DEPTH
    requires o.additional == o'.additional && n.additional == n'.additional
    requires CombinatorOf(o, name) == CombinatorOf(o', name) && CombinatorOf(n, name) == CombinatorOf(n', name)
    ensures CombinatorPart(scope, o, n, name, pointer, depth) == CombinatorPart(scope, o', n', name, pointer, depth)
  {
    hide SlotChanges, CombinatorChanges;
    var slots := SharedBranches(CombinatorOf(o, name), CombinatorOf(n, name), name);
    forall slot | slot in slots ensures SameSlot(o, o', slot) && SameSlot(n, n', slot) {
      assert slot.Branch? && slot.combinator == name;
    }
    SameSlotsSameChanges(scope, o, n, o', n', slots, pointer, depth);
  }

  lemma {:induction false} QuietIfPartsAre(role: Role, scope: Scope, o: Schema, n: Schema, parts: nat, pointer: Pointer, depth: nat)
    requires o.ObjectSchema? && n.ObjectSchema? && depth <= MAX_COMPARE_DEPTH
    requires forall k: nat :: k < parts ==> Quiet(role, Part(scope, o, n, k, pointer, depth))
    ensures Quiet(role, FirstParts(scope, o, n, parts, pointer, depth))
    decreases parts
  {
    hide Part, SeverityFor, IsStop;
    if parts > 0 {
      QuietIfPartsAre(role, scope, o, n, parts - 1, pointer, depth);
      assert Quiet(role, Part(scope, o, n, parts - 1, pointer, depth));
    }
  }

  lemma ObjectsAreCompared(scope: Scope, o: Schema, n: Schema, pointer: Pointer, depth: nat)
    requires o.ObjectSchema? && n.ObjectSchema? && depth <= MAX_COMPARE_DEPTH
    ensures Changes(scope, o, n, pointer, depth) == FirstParts(scope, o, n, PARTS, pointer, depth)
  {
    hide FirstParts;
  }

  /** Whatever the object, an edit of one part is as quiet as that part. */
  lemma QuietEdit(
      role: Role, scope: Scope, o: Schema, n: Schema, o': Schema, n': Schema, edited: nat, pointer: Pointer, depth: nat)
    requires SameOutside(edited, o, o') && SameOutside(edited, n, n') && depth <= MAX_COMPARE_DEPTH
    requires Quiet(role, Changes(scope, o', n', pointer, depth))
    requires Quiet(role, Part(scope, o, n, edited, pointer, depth))
    ensures Quiet(role, Changes(scope, o, n, pointer, depth))
  {
    ObjectsAreCompared(scope, o, n, pointer, depth);
    ObjectsAreCompared(scope, o', n', pointer, depth);
    hide Changes, FirstParts, Part, Quiet;
    forall k: nat | k < PARTS ensures Quiet(role, Part(scope, o, n, k, pointer, depth)) {
      if k != edited {
        OtherPartsSame(scope, o, n, o', n', edited, k, pointer, depth);
        QuietPart(role, scope, o', n', k, PARTS, pointer, depth);
      }
    }
    QuietIfPartsAre(role, scope, o, n, PARTS, pointer, depth);
  }

  lemma {:induction false} QuietIfSlotsAre(role: Role, scope: Scope, o: Schema, n: Schema, slots: seq<Slot>, pointer: Pointer, depth: nat)
    requires o.ObjectSchema? && n.ObjectSchema? && depth <= MAX_COMPARE_DEPTH
    requires forall slot :: slot in slots ==> Quiet(role, OneSlotChanges(scope, o, n, slot, pointer, depth))
    ensures Quiet(role, SlotChanges(scope, o, n, slots, pointer, depth))
    decreases |slots|
  {
    if slots == [] {
      NoSlotsNoChanges(scope, o, n, pointer, depth);
    } else {
      hide OneSlotChanges, SlotChanges, SeverityFor, IsStop;
      QuietIfSlotsAre(role, scope, o, n, slots[..|slots| - 1], pointer, depth);
      LastSlot(scope, o, n, slots, pointer, depth);
    }
  }

  /** A slot the edit does not touch stays as quiet as it was. */
  lemma UntouchedSlotIsQuiet(
      role: Role, scope: Scope, o: Schema, n: Schema, b: Schema, slot: Slot, pointer: Pointer, depth: nat)
    requires o.ObjectSchema? && n.ObjectSchema? && b.ObjectSchema?
    requires o.additional == n.additional == b.additional && depth <= MAX_COMPARE_DEPTH
    requires IsCompared(slot) && Has(b, slot) && SameSlot(o, b, slot) && SameSlot(n, b, slot)
    requires Quiet(role, Changes(scope, b, b, pointer, depth))
    ensures Quiet(role, OneSlotChanges(scope, o, n, slot, pointer, depth))
  {
    ObjectsAreCompared(scope, b, b, pointer, depth);
    hide Changes, FirstParts, OneSlotChanges, Quiet;
    assert QuietNode(role, scope, b, b, pointer, depth);
    SameSlotSameChanges(scope, o, n, b, b, slot, pointer, depth);
    QuietSlots(role, scope, b, b, slot, pointer, depth);
  }

  // ----- what the edited object accepts

  lemma SameMembers(sem: Semantics, a: Schema, b: Schema, child: (Schema, Instance) -> bool, v: Instance)
    requires a.ObjectSchema? && b.ObjectSchema?
    requires a.properties == b.properties && a.patternProperties == b.patternProperties && a.additional == b.additional
    ensures AcceptsMembers(sem, a, child, v) <==> AcceptsMembers(sem, b, child, v)
  {
    assert forall name :: IsExtra(sem, a, name) <==> IsExtra(sem, b, name);
  }

  lemma SameElements(sem: Semantics, a: Schema, b: Schema, child: (Schema, Instance) -> bool, v: Instance)
    requires a.ObjectSchema? && b.ObjectSchema? && a.items == b.items && v.Array?
    ensures AcceptsElements(sem, a, child, v) <==> AcceptsElements(sem, b, child, v)
  {
  }

  lemma SameCombinations(a: Schema, b: Schema, child: (Schema, Instance) -> bool, v: Instance)
    requires a.ObjectSchema? && b.ObjectSchema? && a.oneOf == b.oneOf && a.anyOf == b.anyOf && a.allOf == b.allOf
    ensures AcceptsCombinators(a, child, v) <==> AcceptsCombinators(b, child, v)
  {
    hide AcceptsBranches;
    assert forall name :: CombinatorOf(a, name) == CombinatorOf(b, name);
  }

  lemma SameValueKeywords(sem: Semantics, a: Schema, b: Schema, v: Instance)
    requires a.ObjectSchema? && b.ObjectSchema?
    requires a.types == b.types && a.enum == b.enum && a.pattern == b.pattern && a.max == b.max && a.min == b.min
    requires a.required == b.required
    ensures AcceptsValue(sem, a, v) <==> AcceptsValue(sem, b, v)
  {
  }

  /** Objects that differ in one value keyword, or in the rest, agree on everything below. */
  lemma SameSubschemas(sem: Semantics, a: Schema, b: Schema, child: (Schema, Instance) -> bool, v: Instance)
    requires a.ObjectSchema? && b.ObjectSchema?
    requires a.properties == b.properties && a.patternProperties == b.patternProperties && a.additional == b.additional
    requires a.items == b.items && a.oneOf == b.oneOf && a.anyOf == b.anyOf && a.allOf == b.allOf
    ensures AcceptsMembers(sem, a, child, v) <==> AcceptsMembers(sem, b, child, v)
    ensures v.Array? ==> (AcceptsElements(sem, a, child, v) <==> AcceptsElements(sem, b, child, v))
    ensures AcceptsCombinators(a, child, v) <==> AcceptsCombinators(b, child, v)
  {
    SameMembers(sem, a, b, child, v);
    SameCombinations(a, b, child, v);
    if v.Array? {
      SameElements(sem, a, b, child, v);
    }
  }

  /** An object is judged by one step, its subschemas by the meaning itself. */
  lemma ObjectMeaning(reg: Registry, sem: Semantics, valid: Validity, base: Text, s: Schema, child: (Schema, Instance) -> bool)
    requires Models(reg, sem, valid) && s.ObjectSchema?
    requires forall c, w :: child(c, w) <==> valid(base, c, w)
    ensures forall v :: valid(base, s, v) <==> Accepts(sem, s, child, v)
  {
    var same: (Schema, Instance) -> bool := (c, w) => valid(base, c, w);
    forall v ensures valid(base, s, v) <==> Accepts(sem, s, child, v) {
      assert Equation(reg, sem, valid, base, s, v);
      hide Accepts;
      OnlyPartsMatter(sem, s, same, child, v);
    }
  }

  /** An edit that adds a demand narrows exactly the instances that do not meet it. */
  lemma AddedDemand(scope: Scope, o: Schema, n: Schema, sem: Semantics, ov: Validity, nv: Validity, demand: Instance -> bool)
    requires RefFree(o) && Models(scope.oldReg, sem, ov) && Models(scope.newReg, sem, nv)
    requires forall v :: nv(scope.newBase, o, v) ==> (nv(scope.newBase, n, v) <==> demand(v))
    ensures Compatible(Request, scope, o, n, ov, nv) <==> forall v :: ov(scope.oldBase, o, v) ==> demand(v)
  {
    SameInBothTrees(scope, o, sem, ov, nv);
  }

  /** An edit that drops a demand widens exactly the instances that do not meet it. */
  lemma DroppedDemand(scope: Scope, o: Schema, n: Schema, sem: Semantics, ov: Validity, nv: Validity, demand: Instance -> bool)
    requires RefFree(n) && Models(scope.oldReg, sem, ov) && Models(scope.newReg, sem, nv)
    requires forall v :: ov(scope.oldBase, n, v) ==> (ov(scope.oldBase, o, v) <==> demand(v))
    ensures Compatible(Response, scope, o, n, ov, nv) <==> forall v :: nv(scope.newBase, n, v) ==> demand(v)
  {
    SameInBothTrees(scope, n, sem, ov, nv);
  }

  /** A role that watches both directions asks for both. */
  lemma BothDirections(scope: Scope, o: Schema, n: Schema, ov: Validity, nv: Validity)
    ensures Compatible(Conservative, scope, o, n, ov, nv) <==>
            Compatible(Request, scope, o, n, ov, nv) && Compatible(Response, scope, o, n, ov, nv)
  {
  }

  // ----- enum

  ghost predicate InEnum(sem: Semantics, es: set<Text>, v: Instance) {
    exists e :: e in es && sem.equalsLiteral(e, v)
  }

  /** A whole `enum` is one more demand. */
  lemma EnumDemands(reg: Registry, sem: Semantics, valid: Validity, base: Text, o: Schema, es: set<Text>)
    requires Models(reg, sem, valid) && o.ObjectSchema? && o.enum.None?
    ensures forall v :: valid(base, o.(enum := Some(es)), v) <==> valid(base, o, v) && InEnum(sem, es, v)
  {
    var n := o.(enum := Some(es));
    var child: (Schema, Instance) -> bool := (c, w) => valid(base, c, w);
    ObjectMeaning(reg, sem, valid, base, o, child);
    ObjectMeaning(reg, sem, valid, base, n, child);
    hide Models, AcceptsMembers, AcceptsElements, AcceptsCombinators;
    forall v ensures Accepts(sem, n, child, v) <==> Accepts(sem, o, child, v) && InEnum(sem, es, v) {
      SameSubschemas(sem, o, n, child, v);
    }
  }

  /** Introducing `enum` on a request counts as adding members: silent, and right exactly when every accepted instance is listed. */
  lemma EnumIntroducedExactly(
      scope: Scope, o: Schema, es: set<Text>, pointer: Pointer, depth: nat, sem: Semantics, ov: Validity, nv: Validity)
    requires RefFree(o) && o.ObjectSchema? && o.enum.None? && depth <= MAX_COMPARE_DEPTH
    requires Models(scope.oldReg, sem, ov) && Models(scope.newReg, sem, nv)
    ensures Quiet(Request, Changes(scope, o, o, pointer, depth)) ==>
            Quiet(Request, Changes(scope, o, o.(enum := Some(es)), pointer, depth))
    ensures Compatible(Request, scope, o, o.(enum := Some(es)), ov, nv) <==>
            forall v :: ov(scope.oldBase, o, v) ==> InEnum(sem, es, v)
  {
    var n := o.(enum := Some(es));
    EnumDemands(scope.newReg, sem, nv, scope.newBase, o, es);
    hide Models, RefFree, Changes, InEnum;
    AddedDemand(scope, o, n, sem, ov, nv, v => InEnum(sem, es, v));
    if Quiet(Request, Changes(scope, o, o, pointer, depth)) {
      EnumEditsAreQuiet(scope, o, es, pointer, depth);
      QuietEdit(Request, scope, o, n, o, o, 1, pointer, depth);
    }
  }

  lemma EnumEditsAreQuiet(scope: Scope, o: Schema, es: set<Text>, pointer: Pointer, depth: nat)
    requires o.ObjectSchema? && o.enum.None? && depth <= MAX_COMPARE_DEPTH
    ensures Quiet(Request, Part(scope, o, o.(enum := Some(es)), 1, pointer, depth))
    ensures Quiet(Response, Part(scope, o.(enum := Some(es)), o, 1, pointer, depth))
  {
  }

  /** Dropping `enum` from a response counts as removing members: silent, and right exactly when nothing unlisted is accepted now. */
  lemma EnumDroppedExactly(
      scope: Scope, n: Schema, es: set<Text>, pointer: Pointer, depth: nat, sem: Semantics, ov: Validity, nv: Validity)
    requires RefFree(n) && n.ObjectSchema? && n.enum.None? && depth <= MAX_COMPARE_DEPTH
    requires Models(scope.oldReg, sem, ov) && Models(scope.newReg, sem, nv)
    ensures Quiet(Response, Changes(scope, n, n, pointer, depth)) ==>
            Quiet(Response, Changes(scope, n.(enum := Some(es)), n, pointer, depth))
    ensures Compatible(Response, scope, n.(enum := Some(es)), n, ov, nv) <==>
            forall v :: nv(scope.newBase, n, v) ==> InEnum(sem, es, v)
  {
    var o := n.(enum := Some(es));
    EnumDemands(scope.oldReg, sem, ov, scope.oldBase, n, es);
    hide Models, RefFree, Changes, InEnum;
    DroppedDemand(scope, o, n, sem, ov, nv, v => InEnum(sem, es, v));
    if Quiet(Response, Changes(scope, n, n, pointer, depth)) {
      EnumEditsAreQuiet(scope, n, es, pointer, depth);
      QuietEdit(Response, scope, o, n, n, n, 1, pointer, depth);
    }
  }

  // ----- pattern

  ghost predicate Matches(sem: Semantics, pattern: Text, v: Instance) {
    v.Str? ==> sem.matches(pattern, v.s)
  }

  lemma PatternDemands(reg: Registry, sem: Semantics, valid: Validity, base: Text, o: Schema, pattern: Text)
    requires Models(reg, sem, valid) && o.ObjectSchema? && o.pattern.None?
    ensures forall v :: valid(base, o.(pattern := Some(pattern)), v) <==> valid(base, o, v) && Matches(sem, pattern, v)
  {
    var n := o.(pattern := Some(pattern));
    var child: (Schema, Instance) -> bool := (c, w) => valid(base, c, w);
    ObjectMeaning(reg, sem, valid, base, o, child);
    ObjectMeaning(reg, sem, valid, base, n, child);
    hide Models, AcceptsMembers, AcceptsElements, AcceptsCombinators;
    forall v ensures Accepts(sem, n, child, v) <==> Accepts(sem, o, child, v) && Matches(sem, pattern, v) {
      SameSubschemas(sem, o, n, child, v);
    }
  }

  /** A rewritten pattern counts as narrowed, so a response stays silent: right exactly when every string accepted now matched before. */
  lemma PatternRewrittenExactly(
      scope: Scope, base: Schema, before: Text, after: Text, pointer: Pointer, depth: nat, sem: Semantics, ov: Validity, nv: Validity)
    requires RefFree(base) && base.ObjectSchema? && base.pattern.None? && depth <= MAX_COMPARE_DEPTH
    requires Models(scope.oldReg, sem, ov) && Models(scope.newReg, sem, nv)
    ensures var o, n := base.(pattern := Some(before)), base.(pattern := Some(after));
            && (Quiet(Response, Changes(scope, base, base, pointer, depth)) ==> Quiet(Response, Changes(scope, o, n, pointer, depth)))
            && (Compatible(Response, scope, o, n, ov, nv) <==> forall v :: nv(scope.newBase, n, v) ==> Matches(sem, before, v))
  {
    var o, n := base.(pattern := Some(before)), base.(pattern := Some(after));
    PatternDemands(scope.oldReg, sem, ov, scope.oldBase, base, before);
    PatternDemands(scope.newReg, sem, nv, scope.newBase, base, after);
    SameInBothTrees(scope, base, sem, ov, nv);
    if Quiet(Response, Changes(scope, base, base, pointer, depth)) {
      hide Models, RefFree, Changes;
      PatternEditIsQuiet(scope, o, n, pointer, depth);
      QuietEdit(Response, scope, o, n, base, base, 3, pointer, depth);
    }
  }

  lemma PatternEditIsQuiet(scope: Scope, o: Schema, n: Schema, pointer: Pointer, depth: nat)
    requires o.ObjectSchema? && n.ObjectSchema? && n.pattern.Some? && depth <= MAX_COMPARE_DEPTH
    ensures Quiet(Response, Part(scope, o, n, 3, pointer, depth))
  {
  }

  // ----- the keywords never read

  lemma RestDemands(reg: Registry, sem: Semantics, valid: Validity, base: Text, o: Schema, rest: Schema)
    requires Models(reg, sem, valid) && o.ObjectSchema?
    ensures forall v :: valid(base, o, v) && valid(base, o.(rest := rest), v) <==> valid(base, o, v) && valid(base, rest, v)
  {
    var n := o.(rest := rest);
    var child: (Schema, Instance) -> bool := (c, w) => valid(base, c, w);
    ObjectMeaning(reg, sem, valid, base, o, child);
    ObjectMeaning(reg, sem, valid, base, n, child);
    hide Models, AcceptsMembers, AcceptsElements, AcceptsCombinators, AcceptsValue;
    forall v ensures Accepts(sem, o, child, v) && Accepts(sem, n, child, v) <==> Accepts(sem, o, child, v) && child(rest, v) {
      SameValueKeywords(sem, o, n, v);
      SameSubschemas(sem, o, n, child, v);
    }
  }

  /** const, not, format and the like are never read: any change of them is silent for every role. */
  lemma UnreadKeywordsExactly(
      role: Role, scope: Scope, o: Schema, rest: Schema, pointer: Pointer, depth: nat, sem: Semantics, ov: Validity, nv: Validity)
    requires RefFree(o) && o.ObjectSchema? && depth <= MAX_COMPARE_DEPTH
    requires Models(scope.oldReg, sem, ov) && Models(scope.newReg, sem, nv)
    ensures Quiet(role, Changes(scope, o, o, pointer, depth)) ==> Quiet(role, Changes(scope, o, o.(rest := rest), pointer, depth))
    ensures Compatible(role, scope, o, o.(rest := rest), ov, nv) <==>
              && (!role.Response? ==> forall v :: ov(scope.oldBase, o, v) ==> nv(scope.newBase, rest, v))
              && (!role.Request? ==> forall v :: nv(scope.newBase, o.(rest := rest), v) ==> nv(scope.newBase, o.rest, v))
  {
    var n := o.(rest := rest);
    RestDemands(scope.newReg, sem, nv, scope.newBase, o, rest);
    RestDemands(scope.newReg, sem, nv, scope.newBase, n, o.rest);
    assert n.(rest := o.rest) == o;
    SameInBothTrees(scope, o, sem, ov, nv);
    if Quiet(role, Changes(scope, o, o, pointer, depth)) {
      hide Models, RefFree, Changes, Part;
      NoSuchPart(role, scope, o, n, pointer, depth);
      QuietEdit(role, scope, o, n, o, o, PARTS, pointer, depth);
    }
  }

  lemma NoSuchPart(role: Role, scope: Scope, o: Schema, n: Schema, pointer: Pointer, depth: nat)
    requires o.ObjectSchema? && n.ObjectSchema? && depth <= MAX_COMPARE_DEPTH
    ensures Quiet(role, Part(scope, o, n, PARTS, pointer, depth))
  {
  }

  // ----- properties and pattern properties

  /** A property or a pattern more. */
  function With(o: Schema, slot: Slot, c: Schema): Schema
    requires o.ObjectSchema? && (slot.Property? || slot.PatternProperty?)
  {
    match slot
    case Property(name) => o.(properties := o.properties[name := c])
    case PatternProperty(p) => o.(patternProperties := o.patternProperties[p := c])
  }

  /** The members the slot's subschema is asked about. */
  ghost predicate SpeaksFor(sem: Semantics, slot: Slot, name: Text) {
    slot == Property(name) || (slot.PatternProperty? && sem.matches(slot.regex, name))
  }

  /** Every member the slot speaks for is accepted by c. */
  ghost predicate MembersFit(sem: Semantics, valid: Validity, base: Text, slot: Slot, c: Schema, v: Instance) {
    v.Object? ==> forall name :: name in v.members && SpeaksFor(sem, slot, name) ==> valid(base, c, v.members[name])
  }

  lemma MemberDemands(sem: Semantics, o: Schema, slot: Slot, c: Schema, child: (Schema, Instance) -> bool, name: Text, w: Instance)
    requires o.ObjectSchema? && (slot.Property? || slot.PatternProperty?) && !Has(o, slot)
    ensures AcceptsMember(sem, o, child, name, w) ==>
            (AcceptsMember(sem, With(o, slot, c), child, name, w) <==> (SpeaksFor(sem, slot, name) ==> child(c, w)))
    ensures o.additional.Open? && AcceptsMember(sem, With(o, slot, c), child, name, w) ==> AcceptsMember(sem, o, child, name, w)
  {
    var n := With(o, slot, c);
    if AcceptsMember(sem, o, child, name, w) || (o.additional.Open? && AcceptsMember(sem, n, child, name, w)) {
      ExtrasShrink(sem, o, slot, c, name);
    }
    if slot.PatternProperty? {
      forall p | p in o.patternProperties ensures p in n.patternProperties && n.patternProperties[p] == o.patternProperties[p] {}
    } else {
      assert name != slot.name && name in o.properties ==> n.properties[name] == o.properties[name];
    }
  }

  lemma ExtrasShrink(sem: Semantics, o: Schema, slot: Slot, c: Schema, name: Text)
    requires o.ObjectSchema? && (slot.Property? || slot.PatternProperty?)
    ensures IsExtra(sem, With(o, slot, c), name) <==> IsExtra(sem, o, name) && !SpeaksFor(sem, slot, name)
  {
  }

  /** A property or pattern demands that its members fit; only a closed or constrained object gains by it. */
  lemma SlotDemands(reg: Registry, sem: Semantics, valid: Validity, base: Text, o: Schema, slot: Slot, c: Schema)
    requires Models(reg, sem, valid) && o.ObjectSchema? && (slot.Property? || slot.PatternProperty?) && !Has(o, slot)
    ensures forall v :: valid(base, o, v) ==> (valid(base, With(o, slot, c), v) <==> MembersFit(sem, valid, base, slot, c, v))
    ensures o.additional.Open? ==> forall v :: valid(base, With(o, slot, c), v) ==> valid(base, o, v)
  {
    var n := With(o, slot, c);
    var child: (Schema, Instance) -> bool := (c, w) => valid(base, c, w);
    ObjectMeaning(reg, sem, valid, base, o, child);
    ObjectMeaning(reg, sem, valid, base, n, child);
    forall v
      ensures Accepts(sem, o, child, v) ==> (Accepts(sem, n, child, v) <==> MembersFit(sem, valid, base, slot, c, v))
      ensures o.additional.Open? && Accepts(sem, n, child, v) ==> Accepts(sem, o, child, v)
    {
      hide Models, AcceptsMember, AcceptsElements, AcceptsCombinators, AcceptsValue, SpeaksFor;
      SameValueKeywords(sem, o, n, v);
      SameCombinations(o, n, child, v);
      if v.Object? {
        forall name | name in v.members
          ensures AcceptsMember(sem, o, child, name, v.members[name]) ==>
                  (AcceptsMember(sem, n, child, name, v.members[name]) <==>
                   (SpeaksFor(sem, slot, name) ==> child(c, v.members[name])))
          ensures o.additional.Open? && AcceptsMember(sem, n, child, name, v.members[name]) ==>
                  AcceptsMember(sem, o, child, name, v.members[name])
        {
          MemberDemands(sem, o, slot, c, child, name, v.members[name]);
        }
      }
      if v.Array? {
        SameElements(sem, o, n, child, v);
      }
    }
  }

  /** The roles under which a property or pattern only the new side has raises nothing. */
  predicate AdditionIsSilent(role: Role, o: Schema)
    requires o.ObjectSchema?
  {
    role.Request? || o.additional.Open?
  }

  /** The roles under which one only the old side has raises nothing. */
  predicate RemovalIsSilent(role: Role, n: Schema, slot: Slot)
    requires n.ObjectSchema?
  {
    if n.additional.Open? then slot.Property? || role.Request? else role.Response?
  }

  lemma OneSidedSlot(role: Role, scope: Scope, o: Schema, n: Schema, slot: Slot, pointer: Pointer, depth: nat)
    requires o.ObjectSchema? && n.ObjectSchema? && (slot.Property? || slot.PatternProperty?) && depth <= MAX_COMPARE_DEPTH
    ensures !Has(o, slot) && Has(n, slot) ==>
              (Quiet(role, OneSlotChanges(scope, o, n, slot, pointer, depth)) <==> AdditionIsSilent(role, o))
    ensures Has(o, slot) && !Has(n, slot) ==>
              (Quiet(role, OneSlotChanges(scope, o, n, slot, pointer, depth)) <==> RemovalIsSilent(role, n, slot))
  {
    hide Changes;
    var cs := OneSlotChanges(scope, o, n, slot, pointer, depth);
    if Has(o, slot) != Has(n, slot) {
      assert |cs| == 1 && cs[0] in cs;
    }
  }

  function PartOfSlot(slot: Slot): nat {
    if slot.Property? then 7 else 8
  }

  ghost function MemberSlots(o: Schema, n: Schema, slot: Slot): seq<Slot>
    requires o.ObjectSchema? && n.ObjectSchema?
  {
    if slot.Property? then PropertySlots(o, n) else PatternSlots(o, n)
  }

  lemma PropertyOfOne(o: Schema, n: Schema, slot: Slot)
    requires o.ObjectSchema? && n.ObjectSchema? && slot in PropertySlots(o, n)
    ensures slot.Property? && (Has(o, slot) || Has(n, slot))
  {
    var names := SortedTexts(o.properties.Keys + n.properties.Keys);
    var i :| 0 <= i < |names| && AsProperties(names)[i] == slot;
    assert names[i] in names;
  }

  lemma PatternOfOne(o: Schema, n: Schema, slot: Slot)
    requires o.ObjectSchema? && n.ObjectSchema? && slot in PatternSlots(o, n)
    ensures slot.PatternProperty? && (Has(o, slot) || Has(n, slot))
  {
    var names := SortedTexts(o.patternProperties.Keys + n.patternProperties.Keys);
    var i :| 0 <= i < |names| && AsPatterns(names)[i] == slot;
    assert names[i] in names;
  }

  /** b is one side, and the other differs from it in one slot only. */
  predicate OneMore(o: Schema, n: Schema, b: Schema, slot: Slot, c: Schema) {
    && b.ObjectSchema? && (slot.Property? || slot.PatternProperty?) && !Has(b, slot)
    && ((o == b && n == With(b, slot, c)) || (n == b && o == With(b, slot, c)))
  }

  lemma OtherSlotsSame(o: Schema, n: Schema, b: Schema, slot: Slot, c: Schema, other: Slot)
    requires OneMore(o, n, b, slot, c) && other != slot && (Has(o, other) || Has(n, other))
    requires other.Property? || other.PatternProperty?
    ensures Has(b, other) && SameSlot(o, b, other) && SameSlot(n, b, other)
  {
  }

  /** A slot one side gains leaves the part as quiet as the slot itself. */
  lemma OneSidedPart(
      role: Role, scope: Scope, o: Schema, n: Schema, b: Schema, slot: Slot, c: Schema, pointer: Pointer, depth: nat)
    requires OneMore(o, n, b, slot, c) && depth <= MAX_COMPARE_DEPTH
    requires Quiet(role, Changes(scope, b, b, pointer, depth))
    requires Quiet(role, OneSlotChanges(scope, o, n, slot, pointer, depth))
    ensures Quiet(role, Part(scope, o, n, PartOfSlot(slot), pointer, depth))
  {
    hide Changes, FirstParts, SlotChanges, OneSlotChanges, Quiet, PropertySlots, PatternSlots, OneMore;
    OneMoreSides(o, n, b, slot, c);
    var slots := MemberSlots(o, n, slot);
    forall other | other in slots ensures Quiet(role, OneSlotChanges(scope, o, n, other, pointer, depth)) {
      MemberOfOne(o, n, slot, other);
      if other != slot {
        OtherSlotsSame(o, n, b, slot, c, other);
        UntouchedSlotIsQuiet(role, scope, o, n, b, other, pointer, depth);
      }
    }
    QuietIfSlotsAre(role, scope, o, n, slots, pointer, depth);
  }

  lemma MemberOfOne(o: Schema, n: Schema, slot: Slot, other: Slot)
    requires o.ObjectSchema? && n.ObjectSchema? && other in MemberSlots(o, n, slot)
    ensures (other.Property? || other.PatternProperty?) && (Has(o, other) || Has(n, other))
  {
    hide PropertySlots, PatternSlots;
    if slot.Property? {
      PropertyOfOne(o, n, other);
    } else {
      PatternOfOne(o, n, other);
    }
  }

  lemma OneMoreSides(o: Schema, n: Schema, b: Schema, slot: Slot, c: Schema)
    requires OneMore(o, n, b, slot, c)
    ensures o.ObjectSchema? && n.ObjectSchema? && b.ObjectSchema? && o.additional == n.additional == b.additional
    ensures slot.Property? || slot.PatternProperty?
    ensures SameOutside(PartOfSlot(slot), o, b) && SameOutside(PartOfSlot(slot), n, b)
  {
  }

  /** The whole comparison stays quiet exactly when the slot does. */
  lemma OneSidedEdit(
      role: Role, scope: Scope, o: Schema, n: Schema, b: Schema, slot: Slot, c: Schema, pointer: Pointer, depth: nat)
    requires OneMore(o, n, b, slot, c) && depth <= MAX_COMPARE_DEPTH
    requires Quiet(role, Changes(scope, b, b, pointer, depth))
    ensures o.ObjectSchema? && n.ObjectSchema?
    ensures Quiet(role, Changes(scope, o, n, pointer, depth)) <==> Quiet(role, OneSlotChanges(scope, o, n, slot, pointer, depth))
  {
    OneMoreSides(o, n, b, slot, c);
    ObjectsAreCompared(scope, o, n, pointer, depth);
    assert Has(o, slot) || Has(n, slot);
    hide Changes, FirstParts, OneSlotChanges, Quiet, OneMore, Part;
    if Quiet(role, OneSlotChanges(scope, o, n, slot, pointer, depth)) {
      OneSidedPart(role, scope, o, n, b, slot, c, pointer, depth);
      QuietEdit(role, scope, o, n, b, b, PartOfSlot(slot), pointer, depth);
    }
    if Quiet(role, Changes(scope, o, n, pointer, depth)) {
      assert QuietNode(role, scope, o, n, pointer, depth);
      QuietSlots(role, scope, o, n, slot, pointer, depth);
    }
  }

  /** A property or pattern only the new side has, for every role under which that raises nothing. */
  lemma SlotAddedExactly(
      role: Role, scope: Scope, o: Schema, slot: Slot, c: Schema, pointer: Pointer, depth: nat,
      sem: Semantics, ov: Validity, nv: Validity)
    requires RefFree(o) && o.ObjectSchema? && (slot.Property? || slot.PatternProperty?) && !Has(o, slot)
    requires Models(scope.oldReg, sem, ov) && Models(scope.newReg, sem, nv) && depth <= MAX_COMPARE_DEPTH
    ensures Quiet(role, Changes(scope, o, o, pointer, depth)) ==>
            (Quiet(role, Changes(scope, o, With(o, slot, c), pointer, depth)) <==> AdditionIsSilent(role, o))
    ensures AdditionIsSilent(role, o) ==>
            (Compatible(role, scope, o, With(o, slot, c), ov, nv) <==>
             role.Response? || forall v :: ov(scope.oldBase, o, v) ==> MembersFit(sem, nv, scope.newBase, slot, c, v))
  {
    var n := With(o, slot, c);
    SlotDemands(scope.newReg, sem, nv, scope.newBase, o, slot, c);
    SameInBothTrees(scope, o, sem, ov, nv);
    assert Has(n, slot) && OneMore(o, n, o, slot, c);
    hide Models, RefFree, Changes, MembersFit, With, OneMore, Quiet;
    AddedDemand(scope, o, n, sem, ov, nv, v => MembersFit(sem, nv, scope.newBase, slot, c, v));
    BothDirections(scope, o, n, ov, nv);
    if Quiet(role, Changes(scope, o, o, pointer, depth)) {
      OneSidedEdit(role, scope, o, n, o, slot, c, pointer, depth);
      OneSidedSlot(role, scope, o, n, slot, pointer, depth);
    }
  }

  /** A property or pattern only the old side has, for every role under which that raises nothing. */
  lemma SlotRemovedExactly(
      role: Role, scope: Scope, n: Schema, slot: Slot, c: Schema, pointer: Pointer, depth: nat,
      sem: Semantics, ov: Validity, nv: Validity)
    requires RefFree(n) && n.ObjectSchema? && (slot.Property? || slot.PatternProperty?) && !Has(n, slot)
    requires Models(scope.oldReg, sem, ov) && Models(scope.newReg, sem, nv) && depth <= MAX_COMPARE_DEPTH
    ensures Quiet(role, Changes(scope, n, n, pointer, depth)) ==>
            (Quiet(role, Changes(scope, With(n, slot, c), n, pointer, depth)) <==> RemovalIsSilent(role, n, slot))
    ensures RemovalIsSilent(role, n, slot) ==>
            (Compatible(role, scope, With(n, slot, c), n, ov, nv) <==>
             role.Request? || forall v :: nv(scope.newBase, n, v) ==> MembersFit(sem, ov, scope.oldBase, slot, c, v))
  {
    var o := With(n, slot, c);
    SlotDemands(scope.oldReg, sem, ov, scope.oldBase, n, slot, c);
    SameInBothTrees(scope, n, sem, ov, nv);
    assert Has(o, slot) && OneMore(o, n, n, slot, c);
    hide Models, RefFree, Changes, MembersFit, With, OneMore, Quiet;
    DroppedDemand(scope, o, n, sem, ov, nv, v => MembersFit(sem, ov, scope.oldBase, slot, c, v));
    BothDirections(scope, o, n, ov, nv);
    if Quiet(role, Changes(scope, n, n, pointer, depth)) {
      OneSidedEdit(role, scope, o, n, n, slot, c, pointer, depth);
      OneSidedSlot(role, scope, o, n, slot, pointer, depth);
    }
  }

  /** If the instance has the member, the schema accepts it. */
  ghost predicate MemberFits(valid: Validity, base: Text, name: Text, c: Schema, v: Instance) {
    v.Object? && name in v.members ==> valid(base, c, v.members[name])
  }

  /** The schema accepts every member whose name matches. */
  ghost predicate MatchingFit(sem: Semantics, valid: Validity, base: Text, p: Text, c: Schema, v: Instance) {
    v.Object? ==> forall name :: name in v.members && sem.matches(p, name) ==> valid(base, c, v.members[name])
  }

  lemma FitsAlike(sem: Semantics, valid: Validity, base: Text, t: Text, c: Schema)
    ensures forall v :: MembersFit(sem, valid, base, Property(t), c, v) <==> MemberFits(valid, base, t, c, v)
    ensures forall v :: MembersFit(sem, valid, base, PatternProperty(t), c, v) <==> MatchingFit(sem, valid, base, t, c, v)
  {
  }

  /**
   An added property is silent on a request, and for every role when the old object is open.  The
   silence is right exactly when the member, wherever it was accepted, fits.
   */
  lemma PropertyAddedExactly(
      role: Role, scope: Scope, o: Schema, name: Text, c: Schema, pointer: Pointer, depth: nat,
      sem: Semantics, ov: Validity, nv: Validity)
    requires RefFree(o) && o.ObjectSchema? && name !in o.properties && depth <= MAX_COMPARE_DEPTH
    requires Models(scope.oldReg, sem, ov) && Models(scope.newReg, sem, nv)
    ensures var n := o.(properties := o.properties[name := c]);
            && (Quiet(role, Changes(scope, o, o, pointer, depth)) ==>
                  (Quiet(role, Changes(scope, o, n, pointer, depth)) <==> role.Request? || o.additional.Open?))
            && (role.Request? || o.additional.Open? ==>
                  (Compatible(role, scope, o, n, ov, nv) <==>
                   role.Response? || forall v :: ov(scope.oldBase, o, v) ==> MemberFits(nv, scope.newBase, name, c, v)))
  {
    hide Models, RefFree, Changes, Quiet, Compatible, MembersFit, MemberFits;
    SlotAddedExactly(role, scope, o, Property(name), c, pointer, depth, sem, ov, nv);
    FitsAlike(sem, nv, scope.newBase, name, c);
  }

  /**
   A removed property is silent on a response, and for every role when the new object is open.
   The silence is right exactly when the member, wherever it is accepted now, fitted.
   */
  lemma PropertyRemovedExactly(
      role: Role, scope: Scope, n: Schema, name: Text, c: Schema, pointer: Pointer, depth: nat,
      sem: Semantics, ov: Validity, nv: Validity)
    requires RefFree(n) && n.ObjectSchema? && name !in n.properties && depth <= MAX_COMPARE_DEPTH
    requires Models(scope.oldReg, sem, ov) && Models(scope.newReg, sem, nv)
    ensures var o := n.(properties := n.properties[name := c]);
            && (Quiet(role, Changes(scope, n, n, pointer, depth)) ==>
                  (Quiet(role, Changes(scope, o, n, pointer, depth)) <==> role.Response? || n.additional.Open?))
            && (role.Response? || n.additional.Open? ==>
                  (Compatible(role, scope, o, n, ov, nv) <==>
                   role.Request? || forall v :: nv(scope.newBase, n, v) ==> MemberFits(ov, scope.oldBase, name, c, v)))
  {
    hide Models, RefFree, Changes, Quiet, Compatible, MembersFit, MemberFits;
    SlotRemovedExactly(role, scope, n, Property(name), c, pointer, depth, sem, ov, nv);
    FitsAlike(sem, ov, scope.oldBase, name, c);
  }

  /** The same of an added pattern: every member whose name matches must fit. */
  lemma PatternAddedExactly(
      role: Role, scope: Scope, o: Schema, p: Text, c: Schema, pointer: Pointer, depth: nat,
      sem: Semantics, ov: Validity, nv: Validity)
    requires RefFree(o) && o.ObjectSchema? && p !in o.patternProperties && depth <= MAX_COMPARE_DEPTH
    requires Models(scope.oldReg, sem, ov) && Models(scope.newReg, sem, nv)
    ensures var n := o.(patternProperties := o.patternProperties[p := c]);
            && (Quiet(role, Changes(scope, o, o, pointer, depth)) ==>
                  (Quiet(role, Changes(scope, o, n, pointer, depth)) <==> role.Request? || o.additional.Open?))
            && (role.Request? || o.additional.Open? ==>
                  (Compatible(role, scope, o, n, ov, nv) <==>
                   role.Response? || forall v :: ov(scope.oldBase, o, v) ==> MatchingFit(sem, nv, scope.newBase, p, c, v)))
  {
    hide Models, RefFree, Changes, Quiet, Compatible, MembersFit, MatchingFit;
    SlotAddedExactly(role, scope, o, PatternProperty(p), c, pointer, depth, sem, ov, nv);
    FitsAlike(sem, nv, scope.newBase, p, c);
  }

  /**
   A removed pattern is silent on a response unless the new object is open, and on a request only
   if it is.  On a response the silence is right exactly when every matching member fitted.
   */
  lemma PatternRemovedExactly(
      role: Role, scope: Scope, n: Schema, p: Text, c: Schema, pointer: Pointer, depth: nat,
      sem: Semantics, ov: Validity, nv: Validity)
    requires RefFree(n) && n.ObjectSchema? && p !in n.patternProperties && depth <= MAX_COMPARE_DEPTH
    requires Models(scope.oldReg, sem, ov) && Models(scope.newReg, sem, nv)
    ensures var o := n.(patternProperties := n.patternProperties[p := c]);
            && (Quiet(role, Changes(scope, n, n, pointer, depth)) ==>
                  (Quiet(role, Changes(scope, o, n, pointer, depth)) <==>
                   if n.additional.Open? then role.Request? else role.Response?))
            && (n.additional.Open? ==> Compatible(Request, scope, o, n, ov, nv))
            && (Compatible(Response, scope, o, n, ov, nv) <==>
                forall v :: nv(scope.newBase, n, v) ==> MatchingFit(sem, ov, scope.oldBase, p, c, v))
  {
    hide Models, RefFree, Changes, Quiet, MembersFit, MatchingFit;
    var o := n.(patternProperties := n.patternProperties[p := c]);
    SlotRemovedExactly(role, scope, n, PatternProperty(p), c, pointer, depth, sem, ov, nv);
    SlotRemovedExactly(Request, scope, n, PatternProperty(p), c, pointer, depth, sem, ov, nv);
    SlotDemands(scope.oldReg, sem, ov, scope.oldBase, n, PatternProperty(p), c);
    DroppedDemand(scope, o, n, sem, ov, nv, v => MembersFit(sem, ov, scope.oldBase, PatternProperty(p), c, v));
    FitsAlike(sem, ov, scope.oldBase, p, c);
  }

  // ----- oneOf

  ghost predicate ExactlyOne(valid: Validity, base: Text, bs: seq<Schema>, v: Instance) {
    && (exists i :: 0 <= i < |bs| && valid(base, bs[i], v))
    && forall i, j :: 0 <= i < j < |bs| ==> !valid(base, bs[i], v) || !valid(base, bs[j], v)
  }

  lemma OneOfDemands(reg: Registry, sem: Semantics, valid: Validity, base: Text, o: Schema, bs: seq<Schema>)
    requires Models(reg, sem, valid) && o.ObjectSchema? && o.oneOf.NoCombinator?
    ensures forall v :: valid(base, o.(oneOf := Branches(bs)), v) <==> valid(base, o, v) && ExactlyOne(valid, base, bs, v)
  {
    var n := o.(oneOf := Branches(bs));
    var child: (Schema, Instance) -> bool := (c, w) => valid(base, c, w);
    ObjectMeaning(reg, sem, valid, base, o, child);
    ObjectMeaning(reg, sem, valid, base, n, child);
    hide Models, AcceptsMembers, AcceptsElements, AcceptsCombinators, AcceptsValue;
    forall v ensures Accepts(sem, n, child, v) <==> Accepts(sem, o, child, v) && ExactlyOne(valid, base, bs, v) {
      SameValueKeywords(sem, o, n, v);
      SameMembers(sem, o, n, child, v);
      OneMoreCombination(o, n, child, bs, v);
      if v.Array? {
        SameElements(sem, o, n, child, v);
      }
    }
  }

  lemma OneMoreCombination(o: Schema, n: Schema, child: (Schema, Instance) -> bool, bs: seq<Schema>, v: Instance)
    requires o.ObjectSchema? && o.oneOf.NoCombinator? && n == o.(oneOf := Branches(bs))
    ensures AcceptsCombinators(n, child, v) <==> AcceptsCombinators(o, child, v) && AcceptsBranches(OneOf, Branches(bs), child, v)
  {
    assert CombinatorOf(n, OneOf) == Branches(bs) && CombinatorOf(n, AnyOf) == CombinatorOf(o, AnyOf);
    assert CombinatorOf(n, AllOf) == CombinatorOf(o, AllOf);
    hide AcceptsBranches;
    assert AcceptsBranches(OneOf, CombinatorOf(o, OneOf), child, v) by {
      NothingToBranch(OneOf, o.oneOf, child, v);
    }
  }

  /** Widening one branch loses exactly the instances another branch already took. */
  lemma WidenedBranch(valid: Validity, base: Text, bs: seq<Schema>, i: nat, c: Schema, v: Instance)
    requires i < |bs| && (valid(base, bs[i], v) ==> valid(base, c, v)) && ExactlyOne(valid, base, bs, v)
    ensures ExactlyOne(valid, base, bs[i := c], v) <==> (valid(base, c, v) ==> valid(base, bs[i], v))
  {
    var cs := bs[i := c];
    var k :| 0 <= k < |bs| && valid(base, bs[k], v);
    assert valid(base, cs[k], v) && (k != i ==> cs[k] == bs[k]) && cs[i] == c;
  }

  /**
   A `oneOf` branch that widens is silent on a request, and right exactly when no accepted
   instance newly matches it.
   */
  lemma OneOfBranchWidenedExactly(
      scope: Scope, base: Schema, bs: seq<Schema>, i: nat, c: Schema, pointer: Pointer, depth: nat,
      sem: Semantics, ov: Validity, nv: Validity)
    requires base.ObjectSchema? && base.oneOf.NoCombinator? && i < |bs| && depth <= MAX_COMPARE_DEPTH
    requires RefFree(base.(oneOf := Branches(bs)))
    requires Models(scope.oldReg, sem, ov) && Models(scope.newReg, sem, nv)
    requires forall v :: nv(scope.newBase, bs[i], v) ==> nv(scope.newBase, c, v)
    ensures var o, n := base.(oneOf := Branches(bs)), base.(oneOf := Branches(bs[i := c]));
            && (Quiet(Request, Changes(scope, o, o, pointer, depth))
                && Quiet(Request, Changes(scope, bs[i], c, pointer + [Branch(OneOf, i)], depth + 1)) ==>
                  Quiet(Request, Changes(scope, o, n, pointer, depth)))
            && (Compatible(Request, scope, o, n, ov, nv) <==>
                forall v :: ov(scope.oldBase, o, v) && nv(scope.newBase, c, v) ==> nv(scope.newBase, bs[i], v))
  {
    hide Models, RefFree, Changes, ExactlyOne, Part, Quiet, SameOutside;
    var o, n := base.(oneOf := Branches(bs)), base.(oneOf := Branches(bs[i := c]));
    WidenedBranchDemands(scope.newReg, sem, nv, scope.newBase, base, bs, i, c);
    AddedDemand(scope, o, n, sem, ov, nv, v => nv(scope.newBase, c, v) ==> nv(scope.newBase, bs[i], v));
    if && Quiet(Request, Changes(scope, o, o, pointer, depth))
       && Quiet(Request, Changes(scope, bs[i], c, pointer + [Branch(OneOf, i)], depth + 1)) {
      OneOfEdit(base, bs, i, c);
      ChangedBranchIsQuiet(Request, scope, o, n, o, i, pointer, depth);
      QuietEdit(Request, scope, o, n, o, o, 10, pointer, depth);
    }
  }

  /**
   A `oneOf` branch that narrows is silent on a response, and right exactly when nothing accepted
   now matched it before and no longer does.
   */
  lemma OneOfBranchNarrowedExactly(
      scope: Scope, base: Schema, bs: seq<Schema>, i: nat, c: Schema, pointer: Pointer, depth: nat,
      sem: Semantics, ov: Validity, nv: Validity)
    requires base.ObjectSchema? && base.oneOf.NoCombinator? && i < |bs| && depth <= MAX_COMPARE_DEPTH
    requires RefFree(base.(oneOf := Branches(bs)))
    requires Models(scope.oldReg, sem, ov) && Models(scope.newReg, sem, nv)
    requires forall v :: ov(scope.oldBase, bs[i], v) ==> ov(scope.oldBase, c, v)
    ensures var o, n := base.(oneOf := Branches(bs[i := c])), base.(oneOf := Branches(bs));
            && (Quiet(Response, Changes(scope, n, n, pointer, depth))
                && Quiet(Response, Changes(scope, c, bs[i], pointer + [Branch(OneOf, i)], depth + 1)) ==>
                  Quiet(Response, Changes(scope, o, n, pointer, depth)))
            && (Compatible(Response, scope, o, n, ov, nv) <==>
                forall v :: nv(scope.newBase, n, v) && ov(scope.oldBase, c, v) ==> ov(scope.oldBase, bs[i], v))
  {
    hide Models, RefFree, Changes, ExactlyOne, Part, Quiet, SameOutside;
    var o, n := base.(oneOf := Branches(bs[i := c])), base.(oneOf := Branches(bs));
    WidenedBranchDemands(scope.oldReg, sem, ov, scope.oldBase, base, bs, i, c);
    DroppedDemand(scope, o, n, sem, ov, nv, v => ov(scope.oldBase, c, v) ==> ov(scope.oldBase, bs[i], v));
    if && Quiet(Response, Changes(scope, n, n, pointer, depth))
       && Quiet(Response, Changes(scope, c, bs[i], pointer + [Branch(OneOf, i)], depth + 1)) {
      OneOfEdit(base, bs, i, c);
      ChangedBranchIsQuiet(Response, scope, o, n, n, i, pointer, depth);
      QuietEdit(Response, scope, o, n, n, n, 10, pointer, depth);
    }
  }

  /** Among what the branches accepted, a wider branch loses what it newly matches. */
  lemma WidenedBranchDemands(reg: Registry, sem: Semantics, valid: Validity, base: Text, s: Schema, bs: seq<Schema>, i: nat, c: Schema)
    requires Models(reg, sem, valid) && s.ObjectSchema? && s.oneOf.NoCombinator? && i < |bs|
    requires forall v :: valid(base, bs[i], v) ==> valid(base, c, v)
    ensures forall v :: valid(base, s.(oneOf := Branches(bs)), v) ==>
                        (valid(base, s.(oneOf := Branches(bs[i := c])), v) <==> (valid(base, c, v) ==> valid(base, bs[i], v)))
  {
    hide Models, ExactlyOne;
    OneOfDemands(reg, sem, valid, base, s, bs);
    OneOfDemands(reg, sem, valid, base, s, bs[i := c]);
    forall v | valid(base, s.(oneOf := Branches(bs)), v)
      ensures valid(base, s.(oneOf := Branches(bs[i := c])), v) <==> (valid(base, c, v) ==> valid(base, bs[i], v))
    {
      WidenedBranch(valid, base, bs, i, c, v);
    }
  }

  lemma OneOfEdit(base: Schema, bs: seq<Schema>, i: nat, c: Schema)
    requires base.ObjectSchema? && i < |bs|
    ensures var a, b := base.(oneOf := Branches(bs)), base.(oneOf := Branches(bs[i := c]));
            SameOutside(10, a, a) && SameOutside(10, b, a) && OneBranchDiffers(a, b, i) && OneBranchDiffers(b, a, i)
  {
  }

  /** The two objects differ in one `oneOf` branch. */
  predicate OneBranchDiffers(o: Schema, n: Schema, i: nat) {
    && o.ObjectSchema? && n.ObjectSchema? && o.additional == n.additional
    && o.oneOf.Branches? && n.oneOf.Branches? && |o.oneOf.branches| == |n.oneOf.branches|
    && i < |o.oneOf.branches|
    && forall j :: 0 <= j < |o.oneOf.branches| && j != i ==> o.oneOf.branches[j] == n.oneOf.branches[j]
  }

  lemma ChangedBranchIsQuiet(role: Role, scope: Scope, o: Schema, n: Schema, b: Schema, i: nat, pointer: Pointer, depth: nat)
    requires OneBranchDiffers(o, n, i) && (b == o || b == n) && depth <= MAX_COMPARE_DEPTH
    requires Quiet(role, Changes(scope, b, b, pointer, depth))
    requires Quiet(role, Changes(scope, o.oneOf.branches[i], n.oneOf.branches[i], pointer + [Branch(OneOf, i)], depth + 1))
    ensures Quiet(role, Part(scope, o, n, 10, pointer, depth))
  {
    hide Changes, FirstParts, SlotChanges, OneSlotChanges, Quiet, Part;
    OneOfPartIsBranches(scope, o, n, i, pointer, depth);
    var slots := BranchSlots(OneOf, |o.oneOf.branches|);
    forall slot | slot in slots ensures Quiet(role, OneSlotChanges(scope, o, n, slot, pointer, depth)) {
      BranchSlotOf(o, n, i, slot);
      if slot == Branch(OneOf, i) {
        BothHaveSlot(scope, o, n, slot, pointer, depth);
      } else {
        UntouchedSlotIsQuiet(role, scope, o, n, b, slot, pointer, depth);
      }
    }
    QuietIfSlotsAre(role, scope, o, n, slots, pointer, depth);
  }

  lemma BranchSlotOf(o: Schema, n: Schema, i: nat, slot: Slot)
    requires OneBranchDiffers(o, n, i) && slot in BranchSlots(OneOf, |o.oneOf.branches|)
    ensures slot.Branch? && slot.combinator.OneOf? && Has(o, slot) && Has(n, slot)
    ensures slot == Branch(OneOf, i) ==> At(o, slot) == o.oneOf.branches[i] && At(n, slot) == n.oneOf.branches[i]
    ensures slot != Branch(OneOf, i) ==> SameSlot(n, o, slot) && SameSlot(o, n, slot)
  {
  }

  lemma BothHaveSlot(scope: Scope, o: Schema, n: Schema, slot: Slot, pointer: Pointer, depth: nat)
    requires o.ObjectSchema? && n.ObjectSchema? && depth <= MAX_COMPARE_DEPTH && Has(o, slot) && Has(n, slot)
    ensures OneSlotChanges(scope, o, n, slot, pointer, depth)
         == Changes(scope, At(o, slot), At(n, slot), pointer + [slot], depth + 1)
  {
    hide Changes;
  }

  lemma OneOfPartIsBranches(scope: Scope, o: Schema, n: Schema, i: nat, pointer: Pointer, depth: nat)
    requires OneBranchDiffers(o, n, i) && depth <= MAX_COMPARE_DEPTH
    ensures Part(scope, o, n, 10, pointer, depth)
         == SlotChanges(scope, o, n, BranchSlots(OneOf, |o.oneOf.branches|), pointer, depth)
  {
    hide SlotChanges;
  }

  // ----- positional items

  ghost predicate PositionsFit(valid: Validity, base: Text, cs: seq<Schema>, v: Instance) {
    v.Array? ==> forall i :: 0 <= i < |v.elements| && i < |cs| ==> valid(base, cs[i], v.elements[i])
  }

  lemma PositionsDemand(reg: Registry, sem: Semantics, valid: Validity, base: Text, o: Schema, cs: seq<Schema>)
    requires Models(reg, sem, valid) && o.ObjectSchema? && o.items.NoItems?
    ensures forall v :: valid(base, o.(items := Tuple(cs)), v) <==> valid(base, o, v) && PositionsFit(valid, base, cs, v)
  {
    var n := o.(items := Tuple(cs));
    var child: (Schema, Instance) -> bool := (c, w) => valid(base, c, w);
    ObjectMeaning(reg, sem, valid, base, o, child);
    ObjectMeaning(reg, sem, valid, base, n, child);
    hide Models, AcceptsMembers, AcceptsCombinators, AcceptsValue;
    forall v ensures Accepts(sem, n, child, v) <==> Accepts(sem, o, child, v) && PositionsFit(valid, base, cs, v) {
      SameValueKeywords(sem, o, n, v);
      SameMembers(sem, o, n, child, v);
      SameCombinations(o, n, child, v);
    }
  }

  /**
   Positional `items` are compared by text: the same text is silent whatever its refs lead to, and
   right exactly when every array accepted on one side fits the positions as the other reads them.
   */
  lemma PositionalRefsExactly(
      role: Role, scope: Scope, base: Schema, cs: seq<Schema>, pointer: Pointer, depth: nat,
      sem: Semantics, ov: Validity, nv: Validity)
    requires RefFree(base) && base.ObjectSchema? && base.items.NoItems? && depth <= MAX_COMPARE_DEPTH
    requires Models(scope.oldReg, sem, ov) && Models(scope.newReg, sem, nv)
    ensures var s := base.(items := Tuple(cs));
            && (Quiet(role, Changes(scope, base, base, pointer, depth)) ==> Quiet(role, Changes(scope, s, s, pointer, depth)))
            && (Compatible(role, scope, s, s, ov, nv) <==>
                && (!role.Response? ==> forall v :: ov(scope.oldBase, s, v) ==> PositionsFit(nv, scope.newBase, cs, v))
                && (!role.Request? ==> forall v :: nv(scope.newBase, s, v) ==> PositionsFit(ov, scope.oldBase, cs, v)))
  {
    var s := base.(items := Tuple(cs));
    PositionsDemand(scope.oldReg, sem, ov, scope.oldBase, base, cs);
    PositionsDemand(scope.newReg, sem, nv, scope.newBase, base, cs);
    SameInBothTrees(scope, base, sem, ov, nv);
    hide Models, RefFree, PositionsFit;
    if Quiet(role, Changes(scope, base, base, pointer, depth)) {
      hide Changes;
      SamePositionsQuiet(role, scope, s, pointer, depth);
      QuietEdit(role, scope, s, s, base, base, 9, pointer, depth);
    }
  }

  lemma SamePositionsQuiet(role: Role, scope: Scope, s: Schema, pointer: Pointer, depth: nat)
    requires s.ObjectSchema? && s.items.Tuple? && depth <= MAX_COMPARE_DEPTH
    ensures Quiet(role, Part(scope, s, s, 9, pointer, depth))
  {
    NoSlotsNoChanges(scope, s, s, pointer, depth);
    hide SlotChanges;
  }
}
