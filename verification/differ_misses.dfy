/**
 One pair of schemas for each kind of change the comparator is silent about although, under every
 meaning, the accepted instances differ in the direction the role watches.
 */
module DifferMisses {
  import opened Outcomes
  import opened Sorting
  import opened JsonSchema
  import opened SchemaDiffer
  import opened DifferSoundness
  import opened SchemaMeaning
  import opened DifferLimits

  // ----- schemas the comparator has nothing to say about

  /** Objects all the way down, no combinator malformed, not too deep. */
  ghost predicate Plain(s: Schema, depth: nat)
    decreases s
  {
    && depth <= MAX_COMPARE_DEPTH && s.ObjectSchema?
    && (forall name :: !CombinatorOf(s, name).Malformed?)
    && forall slot :: Has(s, slot) && IsCompared(slot) ==> Plain(At(s, slot), depth + 1)
  }

  /** A plain schema against itself raises nothing, whatever the trees. */
  lemma {:induction false} PlainIsQuiet(role: Role, scope: Scope, s: Schema, pointer: Pointer, depth: nat)
    requires Plain(s, depth)
    ensures Quiet(role, Changes(scope, s, s, pointer, depth))
    decreases s, 1
  {
    ObjectsAreCompared(scope, s, s, pointer, depth);
    hide Changes, FirstParts, Part, Quiet, Plain;
    forall k: nat | k < PARTS ensures Quiet(role, Part(scope, s, s, k, pointer, depth)) {
      PlainPart(role, scope, s, k, pointer, depth);
    }
    QuietIfPartsAre(role, scope, s, s, PARTS, pointer, depth);
  }

  lemma {:induction false} PlainPart(role: Role, scope: Scope, s: Schema, k: nat, pointer: Pointer, depth: nat)
    requires Plain(s, depth)
    ensures Quiet(role, Part(scope, s, s, k, pointer, depth))
    decreases s, 0
  {
    forall slot | Has(s, slot) && IsCompared(slot) ensures Quiet(role, OneSlotChanges(scope, s, s, slot, pointer, depth)) {
      hide Changes, Plain;
      BothHaveSlot(scope, s, s, slot, pointer, depth);
      assert Plain(At(s, slot), depth + 1) by {
        PlainBelow(s, slot, depth);
      }
      PlainIsQuiet(role, scope, At(s, slot), pointer + [slot], depth + 1);
    }
    PlainParts(role, scope, s, k, pointer, depth);
  }

  lemma PlainBelow(s: Schema, slot: Slot, depth: nat)
    requires Plain(s, depth) && Has(s, slot) && IsCompared(slot)
    ensures Plain(At(s, slot), depth + 1)
  {
  }

  lemma PlainParts(role: Role, scope: Scope, s: Schema, k: nat, pointer: Pointer, depth: nat)
    requires s.ObjectSchema? && depth <= MAX_COMPARE_DEPTH && forall name :: !CombinatorOf(s, name).Malformed?
    requires forall slot :: Has(s, slot) && IsCompared(slot) ==> Quiet(role, OneSlotChanges(scope, s, s, slot, pointer, depth))
    ensures Quiet(role, Part(scope, s, s, k, pointer, depth))
  {
    hide SlotChanges, OneSlotChanges, SortedTexts, MaxChanges, MinChanges;
    NoMaxChanges(s.max, QUANTITIES, pointer);
    NoMinChanges(s.min, QUANTITIES, pointer);
    if k == 2 {
      QuietIfSlotsAre(role, scope, s, s, SharedSlot(s, s, Extras), pointer, depth);
    } else if k == 6 {
      NothingToName(s.required - s.required);
    } else if k == 7 {
      SlotsAreThere(s);
      QuietIfSlotsAre(role, scope, s, s, PropertySlots(s, s), pointer, depth);
    } else if k == 8 {
      SlotsAreThere(s);
      QuietIfSlotsAre(role, scope, s, s, PatternSlots(s, s), pointer, depth);
    } else if k == 9 {
      QuietIfSlotsAre(role, scope, s, s, SharedSlot(s, s, Element), pointer, depth);
    } else if 10 <= k <= 12 {
      var name := if k == 10 then OneOf else if k == 11 then AnyOf else AllOf;
      QuietIfSlotsAre(role, scope, s, s, SharedBranches(CombinatorOf(s, name), CombinatorOf(s, name), name), pointer, depth);
    }
  }

  lemma SlotsAreThere(s: Schema)
    requires s.ObjectSchema?
    ensures forall slot :: slot in PropertySlots(s, s) ==> slot.Property? && Has(s, slot)
    ensures forall slot :: slot in PatternSlots(s, s) ==> slot.PatternProperty? && Has(s, slot)
  {
    forall slot | slot in PropertySlots(s, s) ensures slot.Property? && Has(s, slot) {
      PropertyOfOne(s, s, slot);
    }
    forall slot | slot in PatternSlots(s, s) ensures slot.PatternProperty? && Has(s, slot) {
      PatternOfOne(s, s, slot);
    }
  }

  // ----- the setting

  /** A registry with one fragment, which every ref resolves to. */
  function OneFragment(s: Schema): Registry {
    Registry((base, ref) => Key([], []), map[Key([], []) := s])
  }

  function Start(o: Registry, n: Registry): Scope {
    Scope([], [], o, n, {}, {})
  }

  const TRUE: Schema := LeafSchema([1])
  const FALSE: Schema := LeafSchema([0])

  /** Text [0] means false and text [1] true; a type or literal holds of null only if it is [0]. */
  const SIMPLE: Semantics := Semantics(
    (t, v) => if v == Null then t == [0] else true,
    (e, v) => false,
    (p, t) => p == [1],
    (raw, v) => raw == [1],
    (text, v) => text == [],
    (raw, v) => true)

  /** The comparison starts in two such registries, each under some meaning. */
  ghost predicate Between(scope: Scope, o: Schema, n: Schema, ov: Validity, nv: Validity) {
    && scope == Start(OneFragment(o), OneFragment(n))
    && Models(scope.oldReg, SIMPLE, ov) && Models(scope.newReg, SIMPLE, nv)
  }

  /** There are such meanings. */
  lemma MeaningsExist(o: Schema, n: Schema) returns (scope: Scope, ov: Validity, nv: Validity)
    requires o.LeafSchema? && n.LeafSchema?
    ensures Between(scope, o, n, ov, nv)
  {
    scope := Start(OneFragment(o), OneFragment(n));
    ov := RecursiveFragmentsHaveMeaning(scope.oldReg, SIMPLE);
    nv := RecursiveFragmentsHaveMeaning(scope.newReg, SIMPLE);
  }

  lemma AnyIsPlain()
    ensures Plain(ANY, 0) && RefFree(ANY)
  {
    assert forall slot :: Has(ANY, slot) ==> slot.Rest? && At(ANY, slot) == UnreadSchema([], false);
    assert RefFree(UnreadSchema([], false));
  }

  /** The empty schema accepts everything. */
  lemma AnyAccepts(reg: Registry, valid: Validity, v: Instance)
    requires Models(reg, SIMPLE, valid)
    ensures valid([], ANY, v)
  {
    assert Equation(reg, SIMPLE, valid, [], ANY, v) && Equation(reg, SIMPLE, valid, [], ANY.rest, v);
  }

  lemma LeafAccepts(reg: Registry, valid: Validity, v: Instance)
    requires Models(reg, SIMPLE, valid)
    ensures valid([], TRUE, v) && !valid([], FALSE, v)
  {
    assert Equation(reg, SIMPLE, valid, [], TRUE, v) && Equation(reg, SIMPLE, valid, [], FALSE, v);
  }

  // ----- the pairs

  const NULLS: set<Text> := {[0]}
  const NULLS_ONLY: Schema := ANY.(enum := Some(NULLS))

  /** Introducing `enum` on a request counts as adding members. */
  lemma EnumIntroducedIsMissed(scope: Scope, ov: Validity, nv: Validity)
    requires Between(scope, TRUE, TRUE, ov, nv)
    ensures Quiet(Request, Changes(scope, ANY, NULLS_ONLY, [], 0)) && !Compatible(Request, scope, ANY, NULLS_ONLY, ov, nv)
  {
    hide Changes, RefFree, Models, Quiet, Compatible;
    AnyIsPlain();
    PlainIsQuiet(Request, scope, ANY, [], 0);
    EnumIntroducedExactly(scope, ANY, NULLS, [], 0, SIMPLE, ov, nv);
    AnyAccepts(scope.oldReg, ov, Null);
    assert !InEnum(SIMPLE, NULLS, Null);
  }

  /** Dropping `enum` from a response counts as removing members. */
  lemma EnumDroppedIsMissed(scope: Scope, ov: Validity, nv: Validity)
    requires Between(scope, TRUE, TRUE, ov, nv)
    ensures Quiet(Response, Changes(scope, NULLS_ONLY, ANY, [], 0)) && !Compatible(Response, scope, NULLS_ONLY, ANY, ov, nv)
  {
    hide Changes, RefFree, Models, Quiet, Compatible;
    AnyIsPlain();
    PlainIsQuiet(Response, scope, ANY, [], 0);
    EnumDroppedExactly(scope, ANY, NULLS, [], 0, SIMPLE, ov, nv);
    AnyAccepts(scope.newReg, nv, Null);
    assert !InEnum(SIMPLE, NULLS, Null);
  }

  const NEVER: Schema := ANY.(pattern := Some([0]))
  const ALWAYS: Schema := ANY.(pattern := Some([1]))

  /** A rewritten pattern counts as narrowed, so a response may widen by one. */
  lemma PatternRewrittenIsMissed(scope: Scope, ov: Validity, nv: Validity)
    requires Between(scope, TRUE, TRUE, ov, nv)
    ensures Quiet(Response, Changes(scope, NEVER, ALWAYS, [], 0)) && !Compatible(Response, scope, NEVER, ALWAYS, ov, nv)
  {
    hide Changes, RefFree, Models, Quiet, Compatible;
    AnyIsPlain();
    PlainIsQuiet(Response, scope, ANY, [], 0);
    PatternRewrittenExactly(scope, ANY, [0], [1], [], 0, SIMPLE, ov, nv);
    PatternDemands(scope.newReg, SIMPLE, nv, [], ANY, [1]);
    AnyAccepts(scope.newReg, nv, Str([]));
    assert Matches(SIMPLE, [1], Str([])) && !Matches(SIMPLE, [0], Str([]));
  }

  const WITH_PROPERTY: Schema := ANY.(properties := ANY.properties[[5] := FALSE])
  const OBJECT: Instance := Object(map[[5] := Null])

  /** A property added to an open object restricts a member that was free. */
  lemma PropertyAddedIsMissed(role: Role, scope: Scope, ov: Validity, nv: Validity)
    requires Between(scope, TRUE, TRUE, ov, nv) && !role.Response?
    ensures Quiet(role, Changes(scope, ANY, WITH_PROPERTY, [], 0)) && !Compatible(role, scope, ANY, WITH_PROPERTY, ov, nv)
  {
    hide Changes, RefFree, Models, Quiet, Compatible;
    AnyIsPlain();
    PlainIsQuiet(role, scope, ANY, [], 0);
    PropertyAddedExactly(role, scope, ANY, [5], FALSE, [], 0, SIMPLE, ov, nv);
    AnyAccepts(scope.oldReg, ov, OBJECT);
    LeafAccepts(scope.newReg, nv, Null);
    assert !MemberFits(nv, [], [5], FALSE, OBJECT);
  }

  /** Dropping it again frees the member. */
  lemma PropertyRemovedIsMissed(role: Role, scope: Scope, ov: Validity, nv: Validity)
    requires Between(scope, TRUE, TRUE, ov, nv) && !role.Request?
    ensures Quiet(role, Changes(scope, WITH_PROPERTY, ANY, [], 0)) && !Compatible(role, scope, WITH_PROPERTY, ANY, ov, nv)
  {
    hide Changes, RefFree, Models, Quiet, Compatible;
    AnyIsPlain();
    PlainIsQuiet(role, scope, ANY, [], 0);
    PropertyRemovedExactly(role, scope, ANY, [5], FALSE, [], 0, SIMPLE, ov, nv);
    AnyAccepts(scope.newReg, nv, OBJECT);
    LeafAccepts(scope.oldReg, ov, Null);
    assert !MemberFits(ov, [], [5], FALSE, OBJECT);
  }

  const WITH_PATTERN: Schema := ANY.(patternProperties := ANY.patternProperties[[1] := FALSE])

  /** So does a pattern. */
  lemma PatternAddedIsMissed(role: Role, scope: Scope, ov: Validity, nv: Validity)
    requires Between(scope, TRUE, TRUE, ov, nv) && !role.Response?
    ensures Quiet(role, Changes(scope, ANY, WITH_PATTERN, [], 0)) && !Compatible(role, scope, ANY, WITH_PATTERN, ov, nv)
  {
    hide Changes, RefFree, Models, Quiet, Compatible;
    AnyIsPlain();
    PlainIsQuiet(role, scope, ANY, [], 0);
    PatternAddedExactly(role, scope, ANY, [1], FALSE, [], 0, SIMPLE, ov, nv);
    AnyAccepts(scope.oldReg, ov, OBJECT);
    LeafAccepts(scope.newReg, nv, Null);
    OneMember(nv);
  }

  lemma OneMember(valid: Validity)
    requires !valid([], FALSE, Null)
    ensures !MatchingFit(SIMPLE, valid, [], [1], FALSE, OBJECT)
  {
    var name: Text := [5];
    assert name in OBJECT.members && SIMPLE.matches([1], name) && OBJECT.members[name] == Null;
  }

  /** Extras held to a schema that accepts everything: constrained, and no more than open. */
  const CONSTRAINED: Schema := ANY.(additional := Values(ANY))

  lemma ConstrainedIsPlain()
    ensures Plain(CONSTRAINED, 0) && RefFree(CONSTRAINED)
  {
    TypelessIsPlain();
    hide Plain, RefFree;
    forall slot | Has(CONSTRAINED, slot)
      ensures RefFree(At(CONSTRAINED, slot)) && (IsCompared(slot) ==> Plain(At(CONSTRAINED, slot), 1))
    {
      AnyRestIsFree();
      assert slot.Rest? || slot == Extras;
    }
    FromBelow(CONSTRAINED);
  }

  lemma TypelessIsPlain()
    ensures Plain(ANY, 1) && RefFree(ANY)
  {
    assert forall slot :: Has(ANY, slot) ==> slot.Rest? && At(ANY, slot) == UnreadSchema([], false);
    AnyRestIsFree();
  }

  lemma ConstrainedAccepts(reg: Registry, valid: Validity, v: Instance)
    requires Models(reg, SIMPLE, valid)
    ensures valid([], CONSTRAINED, v)
  {
    assert Equation(reg, SIMPLE, valid, [], CONSTRAINED, v) && Equation(reg, SIMPLE, valid, [], CONSTRAINED.rest, v);
    forall w ensures valid([], ANY, w) {
      AnyAccepts(reg, valid, w);
    }
  }

  const CONSTRAINED_PROPERTY: Schema := CONSTRAINED.(properties := CONSTRAINED.properties[[5] := FALSE])
  const CONSTRAINED_PATTERN: Schema := CONSTRAINED.(patternProperties := CONSTRAINED.patternProperties[[1] := FALSE])

  /** On a request a property is missed where the extras were constrained, too. */
  lemma ConstrainedPropertyAddedIsMissed(scope: Scope, ov: Validity, nv: Validity)
    requires Between(scope, TRUE, TRUE, ov, nv)
    ensures Quiet(Request, Changes(scope, CONSTRAINED, CONSTRAINED_PROPERTY, [], 0))
    ensures !Compatible(Request, scope, CONSTRAINED, CONSTRAINED_PROPERTY, ov, nv)
  {
    hide Changes, RefFree, Models, Quiet, Compatible;
    ConstrainedIsPlain();
    PlainIsQuiet(Request, scope, CONSTRAINED, [], 0);
    PropertyAddedExactly(Request, scope, CONSTRAINED, [5], FALSE, [], 0, SIMPLE, ov, nv);
    ConstrainedAccepts(scope.oldReg, ov, OBJECT);
    LeafAccepts(scope.newReg, nv, Null);
    assert !MemberFits(nv, [], [5], FALSE, OBJECT);
  }

  /** On a response a pattern can go unnoticed where the extras are constrained. */
  lemma PatternRemovedIsMissed(scope: Scope, ov: Validity, nv: Validity)
    requires Between(scope, TRUE, TRUE, ov, nv)
    ensures Quiet(Response, Changes(scope, CONSTRAINED_PATTERN, CONSTRAINED, [], 0))
    ensures !Compatible(Response, scope, CONSTRAINED_PATTERN, CONSTRAINED, ov, nv)
  {
    hide Changes, RefFree, Models, Quiet, Compatible;
    ConstrainedIsPlain();
    PlainIsQuiet(Response, scope, CONSTRAINED, [], 0);
    PatternRemovedExactly(Response, scope, CONSTRAINED, [1], FALSE, [], 0, SIMPLE, ov, nv);
    ConstrainedAccepts(scope.newReg, nv, OBJECT);
    LeafAccepts(scope.oldReg, ov, Null);
    OneMember(ov);
  }

  const CONST: Schema := ANY.(rest := UnreadSchema([7], false))

  /** Adding `const` raises nothing. */
  lemma UnreadKeywordIsMissed(role: Role, scope: Scope, ov: Validity, nv: Validity)
    requires Between(scope, TRUE, TRUE, ov, nv) && !role.Response?
    ensures Quiet(role, Changes(scope, ANY, CONST, [], 0)) && !Compatible(role, scope, ANY, CONST, ov, nv)
  {
    hide Changes, RefFree, Models, Quiet, Compatible;
    AnyIsPlain();
    PlainIsQuiet(role, scope, ANY, [], 0);
    UnreadKeywordsExactly(role, scope, ANY, CONST.rest, [], 0, SIMPLE, ov, nv);
    AnyAccepts(scope.oldReg, ov, Null);
    RestRejects(scope.newReg, nv);
  }

  /** Nor does dropping it. */
  lemma DroppedKeywordIsMissed(role: Role, scope: Scope, ov: Validity, nv: Validity)
    requires Between(scope, TRUE, TRUE, ov, nv) && !role.Request?
    ensures Quiet(role, Changes(scope, CONST, ANY, [], 0)) && !Compatible(role, scope, CONST, ANY, ov, nv)
  {
    hide Changes, RefFree, Models, Quiet, Compatible;
    ConstIsPlain();
    PlainIsQuiet(role, scope, CONST, [], 0);
    assert CONST.(rest := ANY.rest) == ANY;
    UnreadKeywordsExactly(role, scope, CONST, ANY.rest, [], 0, SIMPLE, ov, nv);
    AnyAccepts(scope.newReg, nv, Null);
    RestRejects(scope.newReg, nv);
  }

  lemma ConstIsPlain()
    ensures Plain(CONST, 0) && RefFree(CONST)
  {
    assert forall slot :: Has(CONST, slot) ==> slot.Rest? && At(CONST, slot) == UnreadSchema([7], false);
    assert RefFree(UnreadSchema([7], false));
  }

  lemma RestRejects(reg: Registry, valid: Validity)
    requires Models(reg, SIMPLE, valid)
    ensures !valid([], CONST.rest, Null)
  {
    assert Equation(reg, SIMPLE, valid, [], CONST.rest, Null);
  }

  const REFS: seq<Schema> := [RefSchema([])]
  const POSITIONS: Schema := ANY.(items := Tuple(REFS))

  /**
   Positional `items` are compared by text: the same text is silent although the fragment its
   ref leads to changed from accepting everything to accepting nothing.
   */
  lemma TupleItemsHideRefs(role: Role, scope: Scope, ov: Validity, nv: Validity)
    requires Between(scope, TRUE, FALSE, ov, nv) && !role.Response?
    ensures Quiet(role, Changes(scope, POSITIONS, POSITIONS, [], 0)) && !Compatible(role, scope, POSITIONS, POSITIONS, ov, nv)
  {
    hide Changes, RefFree, Models, Quiet, Compatible;
    AnyIsPlain();
    PlainIsQuiet(role, scope, ANY, [], 0);
    PositionalRefsExactly(role, scope, ANY, REFS, [], 0, SIMPLE, ov, nv);
    PositionsDemand(scope.oldReg, SIMPLE, ov, [], ANY, REFS);
    AnyAccepts(scope.oldReg, ov, Array([Null]));
    RefMeansFragment(scope.oldReg, TRUE, ov);
    RefMeansFragment(scope.newReg, FALSE, nv);
    LeafAccepts(scope.oldReg, ov, Null);
    LeafAccepts(scope.newReg, nv, Null);
    assert PositionsFit(ov, [], REFS, Array([Null]));
    assert Array([Null]).elements[0] == Null && !PositionsFit(nv, [], REFS, Array([Null]));
  }

  lemma RefMeansFragment(reg: Registry, s: Schema, valid: Validity)
    requires reg == OneFragment(s) && Models(reg, SIMPLE, valid)
    ensures valid([], RefSchema([]), Null) <==> valid([], s, Null)
  {
    assert Equation(reg, SIMPLE, valid, [], RefSchema([]), Null);
  }

  const ONLY_NULL: Schema := ANY.(types := Some({[0]}))
  const NO_NULL: Schema := ANY.(types := Some({[9]}))
  const BOTH: Schema := ANY.(types := Some({[0], [9]}))
  const TWO: seq<Schema> := [ONLY_NULL, NO_NULL]
  const EXCLUSIVE: Schema := ANY.(oneOf := Branches(TWO))
  const OVERLAPPING: Schema := ANY.(oneOf := Branches(TWO[1 := BOTH]))

  lemma TypedIsPlain(types: set<Text>)
    ensures Plain(ANY.(types := Some(types)), 1) && RefFree(ANY.(types := Some(types)))
  {
    var s := ANY.(types := Some(types));
    assert forall slot :: Has(s, slot) ==> slot.Rest? && At(s, slot) == UnreadSchema([], false);
    assert RefFree(UnreadSchema([], false));
  }

  lemma ExclusiveIsPlain()
    ensures Plain(EXCLUSIVE, 0) && RefFree(EXCLUSIVE)
  {
    TypedIsPlain({[0]});
    TypedIsPlain({[9]});
    hide Plain, RefFree;
    forall slot | Has(EXCLUSIVE, slot) ensures RefFree(At(EXCLUSIVE, slot)) && (IsCompared(slot) ==> Plain(At(EXCLUSIVE, slot), 1)) {
      assert slot.Rest? || slot == Branch(OneOf, 0) || slot == Branch(OneOf, 1);
      assert RefFree(UnreadSchema([], false)) by {
        AnyRestIsFree();
      }
    }
    FromBelow(EXCLUSIVE);
  }

  lemma AnyRestIsFree()
    ensures RefFree(UnreadSchema([], false))
  {
  }

  lemma FromBelow(s: Schema)
    requires s.ObjectSchema? && forall name :: !CombinatorOf(s, name).Malformed?
    requires forall slot :: Has(s, slot) ==> RefFree(At(s, slot)) && (IsCompared(slot) ==> Plain(At(s, slot), 1))
    ensures Plain(s, 0) && RefFree(s)
  {
  }

  lemma TypeDemands(reg: Registry, valid: Validity, types: set<Text>)
    requires Models(reg, SIMPLE, valid)
    ensures forall v :: valid([], ANY.(types := Some(types)), v) <==> exists t :: t in types && SIMPLE.hasType(t, v)
  {
    var s := ANY.(types := Some(types));
    forall v ensures valid([], s, v) <==> exists t :: t in types && SIMPLE.hasType(t, v) {
      assert Equation(reg, SIMPLE, valid, [], s, v) && Equation(reg, SIMPLE, valid, [], s.rest, v);
    }
  }

  lemma TypedBranches(reg: Registry, valid: Validity)
    requires Models(reg, SIMPLE, valid)
    ensures valid([], ONLY_NULL, Null) && !valid([], NO_NULL, Null) && valid([], BOTH, Null)
    ensures forall v :: valid([], NO_NULL, v) ==> valid([], BOTH, v)
  {
    TypeDemands(reg, valid, {[0]});
    TypeDemands(reg, valid, {[9]});
    TypeDemands(reg, valid, {[0], [9]});
  }

  /** The second branch only gains a type, or only loses it. */
  lemma GainedTypeIsQuiet(scope: Scope, pointer: Pointer)
    ensures Quiet(Request, Changes(scope, NO_NULL, BOTH, pointer, 1))
    ensures Quiet(Response, Changes(scope, BOTH, NO_NULL, pointer, 1))
  {
    TypedIsPlain({[9]});
    PlainIsQuiet(Request, scope, NO_NULL, pointer, 1);
    PlainIsQuiet(Response, scope, NO_NULL, pointer, 1);
    GainedType(scope, pointer);
    hide Changes, Part, Quiet;
    QuietEdit(Request, scope, NO_NULL, BOTH, NO_NULL, NO_NULL, 0, pointer, 1);
    QuietEdit(Response, scope, BOTH, NO_NULL, NO_NULL, NO_NULL, 0, pointer, 1);
  }

  lemma GainedType(scope: Scope, pointer: Pointer)
    ensures Quiet(Request, Part(scope, NO_NULL, BOTH, 0, pointer, 1))
    ensures Quiet(Response, Part(scope, BOTH, NO_NULL, 0, pointer, 1))
  {
    assert Difference(NO_NULL.types, BOTH.types) == {};
  }

  /** A branch of `oneOf` that widens can make two branches match. */
  lemma OneOfBranchWidenedIsMissed(scope: Scope, ov: Validity, nv: Validity)
    requires Between(scope, TRUE, TRUE, ov, nv)
    ensures Quiet(Request, Changes(scope, EXCLUSIVE, OVERLAPPING, [], 0)) && !Compatible(Request, scope, EXCLUSIVE, OVERLAPPING, ov, nv)
  {
    hide Changes, RefFree, Models, Quiet, Compatible;
    ExclusiveIsPlain();
    PlainIsQuiet(Request, scope, EXCLUSIVE, [], 0);
    GainedTypeIsQuiet(scope, [] + [Branch(OneOf, 1)]);
    TypedBranches(scope.newReg, nv);
    OneOfBranchWidenedExactly(scope, ANY, TWO, 1, BOTH, [], 0, SIMPLE, ov, nv);
    NullMatchesFirst(scope.oldReg, ov);
  }

  /** One that narrows can leave a single branch matching. */
  lemma OneOfBranchNarrowedIsMissed(scope: Scope, ov: Validity, nv: Validity)
    requires Between(scope, TRUE, TRUE, ov, nv)
    ensures Quiet(Response, Changes(scope, OVERLAPPING, EXCLUSIVE, [], 0)) && !Compatible(Response, scope, OVERLAPPING, EXCLUSIVE, ov, nv)
  {
    hide Changes, RefFree, Models, Quiet, Compatible;
    ExclusiveIsPlain();
    PlainIsQuiet(Response, scope, EXCLUSIVE, [], 0);
    GainedTypeIsQuiet(scope, [] + [Branch(OneOf, 1)]);
    TypedBranches(scope.oldReg, ov);
    OneOfBranchNarrowedExactly(scope, ANY, TWO, 1, BOTH, [], 0, SIMPLE, ov, nv);
    NullMatchesFirst(scope.newReg, nv);
  }

  lemma NullMatchesFirst(reg: Registry, valid: Validity)
    requires Models(reg, SIMPLE, valid)
    ensures valid([], EXCLUSIVE, Null)
  {
    hide Models;
    TypedBranches(reg, valid);
    OneOfDemands(reg, SIMPLE, valid, [], ANY, TWO);
    AnyAccepts(reg, valid, Null);
    assert TWO[0] == ONLY_NULL && TWO[1] == NO_NULL && ExactlyOne(valid, [], TWO, Null);
  }
}
