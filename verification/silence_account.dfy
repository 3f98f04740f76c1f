/** Every silence of the comparator that is wrong is one of a list of kinds. */
module SilenceAccount {
  // Soundness read backwards.  If a comparison raises nothing breaking and does not stop, and yet
  // the accepted instances changed in the direction the role watches, then somewhere below the two
  // fragments it reached a pair of objects that shows one of these kinds of change.  The exact
  // conditions of each are proved in DifferLimits.

  import opened Sorting
  import opened JsonSchema
  import opened SchemaDiffer
  import opened DifferSoundness
  import opened DifferLimits

  datatype Silence =
    | EnumIntroduced
    | EnumDropped
    | PatternRewritten
    | PropertyAdded(name: Text)
    | PropertyRemoved(name: Text)
    | PatternAdded(regex: Text)
    | PatternRemoved(regex: Text)
    | BranchChanged(i: nat)
    | PositionalRefs
    | UnreadKeywords

  /** The object takes no member beside its properties. */
  predicate TakesNoExtras(s: Schema)
    requires s.ObjectSchema?
  {
    s.additional.Closed? && s.patternProperties == map[]
  }

  /** Objects o and n show this kind of change, and the role has nothing to say about it. */
  ghost predicate Shows(role: Role, o: Schema, n: Schema, kind: Silence)
    requires o.ObjectSchema? && n.ObjectSchema?
  {
    match kind
    case EnumIntroduced => role.Request? && o.enum.None? && n.enum.Some?
    case EnumDropped => role.Response? && o.enum.Some? && n.enum.None?
    case PatternRewritten => role.Response? && o.pattern.Some? && n.pattern.Some? && o.pattern != n.pattern
    case PropertyAdded(name) =>
      name !in o.properties && name in n.properties && !role.Response? && AdditionIsSilent(role, o) && !TakesNoExtras(o)
    case PropertyRemoved(name) =>
      name in o.properties && name !in n.properties && !role.Request? && RemovalIsSilent(role, n, Property(name)) && !TakesNoExtras(n)
    case PatternAdded(p) =>
      p !in o.patternProperties && p in n.patternProperties && !role.Response? && AdditionIsSilent(role, o)
    case PatternRemoved(p) =>
      p in o.patternProperties && p !in n.patternProperties && role.Response? && !n.additional.Open?
    case BranchChanged(i) =>
      && !role.Conservative? && o.oneOf.Branches? && n.oneOf.Branches?
      && i < |o.oneOf.branches| && i < |n.oneOf.branches|
      && (o.oneOf.branches[i] != n.oneOf.branches[i] || !RefFree(o.oneOf.branches[i]))
    case PositionalRefs =>
      && o.items.Tuple? && n.items == o.items
      && exists i :: 0 <= i < |o.items.schemas| && !RefFree(o.items.schemas[i])
    case UnreadKeywords => o.rest != n.rest || !RefFree(o.rest)
  }

  /** A quiet pair of objects that soundness does not cover shows one of the kinds. */
  lemma UnfitShows(role: Role, scope: Scope, o: Schema, n: Schema, pointer: Pointer, depth: nat) returns (kind: Silence)
    requires o.ObjectSchema? && n.ObjectSchema? && depth <= MAX_COMPARE_DEPTH
    requires QuietNode(role, scope, o, n, pointer, depth) && !NodeFits(role, o, n)
    ensures Shows(role, o, n, kind)
  {
    hide QuietNode, RefFree, Fits, SettledBranches;
    kind := UnreadKeywords;
    if o.rest == n.rest && RefFree(o.rest) {
      if o.items.Tuple? && n.items.Tuple? && exists i :: 0 <= i < |o.items.schemas| && !RefFree(o.items.schemas[i]) {
        SamePositions(role, scope, o, n, pointer, depth);
        kind := PositionalRefs;
      } else if !role.Conservative? && !SettledBranches(o.oneOf, n.oneOf) {
        kind := UnsettledShows(role, scope, o, n, pointer, depth);
      } else {
        kind := UnfitMembersShow(role, scope, o, n, pointer, depth);
      }
    }
  }

  lemma SamePositions(role: Role, scope: Scope, o: Schema, n: Schema, pointer: Pointer, depth: nat)
    requires o.ObjectSchema? && n.ObjectSchema? && depth <= MAX_COMPARE_DEPTH
    requires QuietNode(role, scope, o, n, pointer, depth) && o.items.Tuple? && n.items.Tuple?
    ensures n.items == o.items
  {
    QuietKeywords(role, scope, o, n, pointer, depth);
    QuietItems(role, if role.Response? then Widened else Narrowed, o.items, n.items, pointer);
  }

  lemma UnsettledShows(role: Role, scope: Scope, o: Schema, n: Schema, pointer: Pointer, depth: nat) returns (kind: Silence)
    requires o.ObjectSchema? && n.ObjectSchema? && depth <= MAX_COMPARE_DEPTH && !role.Conservative?
    requires QuietNode(role, scope, o, n, pointer, depth) && !SettledBranches(o.oneOf, n.oneOf)
    ensures Shows(role, o, n, kind)
  {
    QuietCombinator(role, scope, o, n, OneOf, pointer, depth);
    hide QuietNode, RefFree;
    var bs, cs := o.oneOf.branches, n.oneOf.branches;
    assert exists i :: 0 <= i < |bs| && (bs[i] != cs[i] || !RefFree(bs[i])) by {
      if forall i :: 0 <= i < |bs| ==> bs[i] == cs[i] {
        assert bs == cs;
      }
    }
    var i: nat :| i < |bs| && (bs[i] != cs[i] || !RefFree(bs[i]));
    kind := BranchChanged(i);
  }

  /** What is left: a whole enum, a pattern, or a property or pattern property only one side has. */
  lemma UnfitMembersShow(role: Role, scope: Scope, o: Schema, n: Schema, pointer: Pointer, depth: nat) returns (kind: Silence)
    requires o.ObjectSchema? && n.ObjectSchema? && depth <= MAX_COMPARE_DEPTH
    requires QuietNode(role, scope, o, n, pointer, depth)
    requires role.Request? ==> !Fits(Narrowed, o, n)
    requires role.Response? ==> !Fits(Widened, o, n)
    requires role.Conservative? ==>
               o.properties.Keys != n.properties.Keys || o.patternProperties.Keys != n.patternProperties.Keys
    ensures Shows(role, o, n, kind)
  {
    hide QuietNode, RefFree;
    if role.Request? && o.enum.None? && n.enum.Some? {
      kind := EnumIntroduced;
    } else if role.Response? && n.enum.None? && o.enum.Some? {
      kind := EnumDropped;
    } else if role.Response? && o.pattern.Some? && n.pattern.Some? && o.pattern != n.pattern {
      kind := PatternRewritten;
    } else if name: Text :| !role.Response? && name in n.properties && name !in o.properties && (role.Request? ==> !TakesNoExtras(o)) {
      SlotIsSilent(role, scope, o, n, Property(name), pointer, depth);
      kind := PropertyAdded(name);
    } else if name: Text :| !role.Request? && name in o.properties && name !in n.properties && (role.Response? ==> !TakesNoExtras(n)) {
      SlotIsSilent(role, scope, o, n, Property(name), pointer, depth);
      kind := PropertyRemoved(name);
    } else if p: Text :| !role.Response? && p in n.patternProperties && p !in o.patternProperties {
      SlotIsSilent(role, scope, o, n, PatternProperty(p), pointer, depth);
      kind := PatternAdded(p);
    } else {
      assert exists p :: !role.Request? && p in o.patternProperties && p !in n.patternProperties by {
        SomethingOneSided(role, o, n);
      }
      var p: Text :| !role.Request? && p in o.patternProperties && p !in n.patternProperties;
      SlotIsSilent(role, scope, o, n, PatternProperty(p), pointer, depth);
      kind := PatternRemoved(p);
    }
  }

  lemma SomethingOneSided(role: Role, o: Schema, n: Schema)
    requires o.ObjectSchema? && n.ObjectSchema?
    requires role.Request? ==> !Fits(Narrowed, o, n) && !(o.enum.None? && n.enum.Some?)
    requires role.Response? ==> !Fits(Widened, o, n) && !(n.enum.None? && o.enum.Some?)
    requires role.Response? && o.pattern.Some? && n.pattern.Some? ==> o.pattern == n.pattern
    requires role.Conservative? ==>
               o.properties.Keys != n.properties.Keys || o.patternProperties.Keys != n.patternProperties.Keys
    requires forall name :: !role.Response? && name in n.properties && name !in o.properties ==> role.Request? && TakesNoExtras(o)
    requires forall name :: !role.Request? && name in o.properties && name !in n.properties ==> role.Response? && TakesNoExtras(n)
    requires forall p :: !role.Response? && p in n.patternProperties ==> p in o.patternProperties
    ensures exists p :: !role.Request? && p in o.patternProperties && p !in n.patternProperties
  {
  }

  lemma SlotIsSilent(role: Role, scope: Scope, o: Schema, n: Schema, slot: Slot, pointer: Pointer, depth: nat)
    requires o.ObjectSchema? && n.ObjectSchema? && depth <= MAX_COMPARE_DEPTH
    requires QuietNode(role, scope, o, n, pointer, depth)
    requires (slot.Property? || slot.PatternProperty?) && (Has(o, slot) || Has(n, slot))
    ensures !Has(o, slot) ==> AdditionIsSilent(role, o)
    ensures !Has(n, slot) ==> RemovalIsSilent(role, n, slot)
  {
    hide QuietNode, Quiet, OneSlotChanges;
    QuietSlots(role, scope, o, n, slot, pointer, depth);
    OneSidedSlot(role, scope, o, n, slot, pointer, depth);
  }

  // ----- anywhere below

  /** The comparison reaches a pair of objects that shows this kind of change. */
  ghost predicate Reaches(role: Role, scope: Scope, oldRaw: Schema, newRaw: Schema, depth: nat, kind: Silence)
    requires depth <= MAX_COMPARE_DEPTH + 1
    decreases MAX_COMPARE_DEPTH + 1 - depth
  {
    var r := ResolvePair(scope, oldRaw, newRaw, [], depth);
    || (kind.UnreadKeywords? && IsOpaque(scope.oldReg, oldRaw, scope.oldBase, scope.oldVisited))
    || (r.Pair? &&
          (|| Shows(role, r.older, r.newer, kind)
           || exists slot :: Has(r.older, slot) && Has(r.newer, slot) && IsCompared(slot) &&
                Reaches(role, r.scope, At(r.older, slot), At(r.newer, slot), depth + 1, kind)))
  }

  /** A quiet comparison outside the fragment soundness covers reaches one of the kinds. */
  lemma {:induction false} OutsideReaches(role: Role, scope: Scope, oldRaw: Schema, newRaw: Schema, pointer: Pointer, depth: nat)
    returns (kind: Silence)
    requires depth <= MAX_COMPARE_DEPTH + 1
    requires Quiet(role, Changes(scope, oldRaw, newRaw, pointer, depth)) && !InFragment(role, scope, oldRaw, newRaw, depth)
    ensures Reaches(role, scope, oldRaw, newRaw, depth, kind)
    decreases MAX_COMPARE_DEPTH + 1 - depth
  {
    hide Quiet, Changes, InFragment, NodeFits, Shows, QuietNode, Reaches, ResolvePair, IsOpaque;
    OutsideCases(role, scope, oldRaw, newRaw, pointer, depth);
    kind := UnreadKeywords;
    var r := ResolvePair(scope, oldRaw, newRaw, [], depth);
    if IsOpaque(scope.oldReg, oldRaw, scope.oldBase, scope.oldVisited) {
      OpaqueReaches(role, scope, oldRaw, newRaw, depth);
    } else if !NodeFits(role, r.older, r.newer) {
      kind := UnfitShows(role, r.scope, r.older, r.newer, pointer, depth);
      ShownReaches(role, scope, oldRaw, newRaw, depth, kind);
    } else {
      var slot :| Has(r.older, slot) && Has(r.newer, slot) && IsCompared(slot)
                  && !InFragment(role, r.scope, At(r.older, slot), At(r.newer, slot), depth + 1);
      ChildIsQuiet(role, r.scope, r.older, r.newer, slot, pointer, depth);
      kind := OutsideReaches(role, r.scope, At(r.older, slot), At(r.newer, slot), pointer + [slot], depth + 1);
      ChildReaches(role, scope, oldRaw, newRaw, depth, slot, kind);
    }
  }

  lemma OutsideCases(role: Role, scope: Scope, oldRaw: Schema, newRaw: Schema, pointer: Pointer, depth: nat)
    requires depth <= MAX_COMPARE_DEPTH + 1
    requires Quiet(role, Changes(scope, oldRaw, newRaw, pointer, depth)) && !InFragment(role, scope, oldRaw, newRaw, depth)
    ensures var r := ResolvePair(scope, oldRaw, newRaw, [], depth);
            !IsOpaque(scope.oldReg, oldRaw, scope.oldBase, scope.oldVisited) ==>
              && r.Pair? && QuietNode(role, r.scope, r.older, r.newer, pointer, depth)
              && (NodeFits(role, r.older, r.newer) ==>
                    exists slot :: Has(r.older, slot) && Has(r.newer, slot) && IsCompared(slot)
                                   && !InFragment(role, r.scope, At(r.older, slot), At(r.newer, slot), depth + 1))
  {
    hide Quiet, NodeFits, FirstParts, IsOpaque;
  }

  lemma OpaqueReaches(role: Role, scope: Scope, oldRaw: Schema, newRaw: Schema, depth: nat)
    requires depth <= MAX_COMPARE_DEPTH + 1 && IsOpaque(scope.oldReg, oldRaw, scope.oldBase, scope.oldVisited)
    ensures Reaches(role, scope, oldRaw, newRaw, depth, UnreadKeywords)
  {
    hide IsOpaque, ResolvePair, Shows;
  }

  lemma ShownReaches(role: Role, scope: Scope, oldRaw: Schema, newRaw: Schema, depth: nat, kind: Silence)
    requires depth <= MAX_COMPARE_DEPTH + 1 && ResolvePair(scope, oldRaw, newRaw, [], depth).Pair?
    requires var r := ResolvePair(scope, oldRaw, newRaw, [], depth); Shows(role, r.older, r.newer, kind)
    ensures Reaches(role, scope, oldRaw, newRaw, depth, kind)
  {
    hide IsOpaque, ResolvePair, Shows;
  }

  lemma ChildReaches(role: Role, scope: Scope, oldRaw: Schema, newRaw: Schema, depth: nat, slot: Slot, kind: Silence)
    requires depth <= MAX_COMPARE_DEPTH && ResolvePair(scope, oldRaw, newRaw, [], depth).Pair?
    requires var r := ResolvePair(scope, oldRaw, newRaw, [], depth);
             Has(r.older, slot) && Has(r.newer, slot) && IsCompared(slot)
             && Reaches(role, r.scope, At(r.older, slot), At(r.newer, slot), depth + 1, kind)
    ensures Reaches(role, scope, oldRaw, newRaw, depth, kind)
  {
    hide IsOpaque, ResolvePair, Shows;
  }

  lemma ShownDoesNotFit(role: Role, o: Schema, n: Schema, kind: Silence)
    requires o.ObjectSchema? && n.ObjectSchema? && Shows(role, o, n, kind)
    ensures !NodeFits(role, o, n)
  {
    hide RefFree;
  }

  /** A comparison that reaches one of the kinds is outside what soundness covers... */
  lemma {:induction false} ReachingIsOutside(role: Role, scope: Scope, oldRaw: Schema, newRaw: Schema, depth: nat, kind: Silence)
    requires depth <= MAX_COMPARE_DEPTH + 1 && Reaches(role, scope, oldRaw, newRaw, depth, kind)
    ensures !InFragment(role, scope, oldRaw, newRaw, depth)
    decreases MAX_COMPARE_DEPTH + 1 - depth
  {
    hide ResolvePair, Shows, NodeFits, IsOpaque, InFragment, Reaches, Has, At, IsCompared;
    if InFragment(role, scope, oldRaw, newRaw, depth) {
      FragmentParts(role, scope, oldRaw, newRaw, depth);
      var slot := ReachesParts(role, scope, oldRaw, newRaw, depth, kind);
      var r := ResolvePair(scope, oldRaw, newRaw, [], depth);
      if Shows(role, r.older, r.newer, kind) {
        ShownDoesNotFit(role, r.older, r.newer, kind);
      } else {
        ReachingIsOutside(role, r.scope, At(r.older, slot), At(r.newer, slot), depth + 1, kind);
      }
    }
  }

  lemma FragmentParts(role: Role, scope: Scope, oldRaw: Schema, newRaw: Schema, depth: nat)
    requires depth <= MAX_COMPARE_DEPTH + 1 && InFragment(role, scope, oldRaw, newRaw, depth)
    ensures !IsOpaque(scope.oldReg, oldRaw, scope.oldBase, scope.oldVisited)
    ensures var r := ResolvePair(scope, oldRaw, newRaw, [], depth);
            r.Pair? ==>
              && NodeFits(role, r.older, r.newer)
              && forall slot :: Has(r.older, slot) && Has(r.newer, slot) && IsCompared(slot) ==>
                   InFragment(role, r.scope, At(r.older, slot), At(r.newer, slot), depth + 1)
  {
    hide ResolvePair, NodeFits, IsOpaque;
  }

  lemma ReachesParts(role: Role, scope: Scope, oldRaw: Schema, newRaw: Schema, depth: nat, kind: Silence) returns (slot: Slot)
    requires depth <= MAX_COMPARE_DEPTH + 1 && Reaches(role, scope, oldRaw, newRaw, depth, kind)
    requires !IsOpaque(scope.oldReg, oldRaw, scope.oldBase, scope.oldVisited)
    ensures var r := ResolvePair(scope, oldRaw, newRaw, [], depth);
            r.Pair? &&
              (|| Shows(role, r.older, r.newer, kind)
               || (Has(r.older, slot) && Has(r.newer, slot) && IsCompared(slot) &&
                     Reaches(role, r.scope, At(r.older, slot), At(r.newer, slot), depth + 1, kind)))
  {
    hide ResolvePair, Shows, IsOpaque;
    var r := ResolvePair(scope, oldRaw, newRaw, [], depth);
    slot := Rest;
    if !Shows(role, r.older, r.newer, kind) {
      slot :| Has(r.older, slot) && Has(r.newer, slot) && IsCompared(slot)
              && Reaches(role, r.scope, At(r.older, slot), At(r.newer, slot), depth + 1, kind);
    }
  }

  /** ... so a quiet comparison is inside exactly when it reaches none. */
  lemma InsideIffNothingReached(role: Role, scope: Scope, oldRaw: Schema, newRaw: Schema, pointer: Pointer, depth: nat)
    requires depth <= MAX_COMPARE_DEPTH + 1 && Quiet(role, Changes(scope, oldRaw, newRaw, pointer, depth))
    ensures InFragment(role, scope, oldRaw, newRaw, depth) <==>
            forall kind :: !Reaches(role, scope, oldRaw, newRaw, depth, kind)
  {
    hide Quiet, Changes, InFragment, Reaches;
    forall kind | Reaches(role, scope, oldRaw, newRaw, depth, kind) ensures !InFragment(role, scope, oldRaw, newRaw, depth) {
      ReachingIsOutside(role, scope, oldRaw, newRaw, depth, kind);
    }
    if !InFragment(role, scope, oldRaw, newRaw, depth) {
      var kind := OutsideReaches(role, scope, oldRaw, newRaw, pointer, depth);
    }
  }

  /**
   The account of the silences is complete: whenever a silent comparison misses that the accepted
   instances changed in a watched direction, it reached a change of one of the kinds above.
   */
  lemma WrongSilenceIsListed(
      role: Role, scope: Scope, oldRaw: Schema, newRaw: Schema, pointer: Pointer, depth: nat,
      sem: Semantics, oldValid: Validity, newValid: Validity) returns (kind: Silence)
    requires depth <= MAX_COMPARE_DEPTH + 1 && Quiet(role, Changes(scope, oldRaw, newRaw, pointer, depth))
    requires Models(scope.oldReg, sem, oldValid) && Models(scope.newReg, sem, newValid)
    requires !Compatible(role, scope, oldRaw, newRaw, oldValid, newValid)
    ensures Reaches(role, scope, oldRaw, newRaw, depth, kind)
  {
    hide Quiet, Changes, Models, Compatible, InFragment, Reaches;
    if InFragment(role, scope, oldRaw, newRaw, depth) {
      DifferSound(role, scope, oldRaw, newRaw, pointer, depth, sem, oldValid, newValid);
    }
    kind := OutsideReaches(role, scope, oldRaw, newRaw, pointer, depth);
  }
}
