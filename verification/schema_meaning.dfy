/** That the validation equations have solutions. */
module SchemaMeaning {
  // A `$ref` cycle makes sense when each round trip passes through a member or an element, because
  // then the instance shrinks.  A rank makes that precise: it falls along every ref and does not
  // rise towards the subschemas that judge the same instance.

  import opened Sorting
  import opened JsonSchema
  import opened DifferSoundness

  type Rank = (Text, Schema) -> nat

  /** Every ref cycle passes through properties or items. */
  ghost predicate Guarded(reg: Registry, rank: Rank) {
    && (forall base, target :: RefFalls(reg, rank, base, target))
    && (forall base, s, slot :: Has(s, slot) && JudgesWhole(slot) ==> rank(base, At(s, slot)) <= rank(base, s))
  }

  ghost predicate RefFalls(reg: Registry, rank: Rank, base: Text, target: Text) {
    var key := reg.split(base, target);
    key in reg.contents ==> rank(key.doc, reg.contents[key]) < rank(base, RefSchema(target))
  }

  /** The subschema at this slot judges the very instance its parent judges. */
  predicate JudgesWhole(slot: Slot) {
    slot.Branch? || slot.Rest?
  }

  /** Validity by recursion on the instance, then the rank, then the schema. */
  ghost predicate Meaning(reg: Registry, sem: Semantics, rank: Rank, base: Text, s: Schema, v: Instance)
    requires Guarded(reg, rank)
    decreases v, rank(base, s), s
  {
    match s
    case LeafSchema(raw) => sem.leaf(raw, v)
    case UnreadSchema(text, _) => sem.unread(text, v)
    case RefSchema(target) =>
      var key := reg.split(base, target);
      assert RefFalls(reg, rank, base, target);
      key in reg.contents && Meaning(reg, sem, rank, key.doc, reg.contents[key], v)
    case _ =>
      Accepts(sem, s,
              (c, w) => (w < v || (w == v && c < s && rank(base, c) <= rank(base, s))) && Meaning(reg, sem, rank, base, c, w),
              v)
  }

  /** A node asks its subschemas about the parts of the instance and about nothing else. */
  lemma OnlyPartsMatter(sem: Semantics, s: Schema, ca: (Schema, Instance) -> bool, cb: (Schema, Instance) -> bool, v: Instance)
    requires s.ObjectSchema?
    requires forall slot, w :: Has(s, slot) && IsPartOf(slot, v, w) ==> (ca(At(s, slot), w) <==> cb(At(s, slot), w))
    ensures Accepts(sem, s, ca, v) <==> Accepts(sem, s, cb, v)
  {
    assert ChildrenLooser(s, s, cb, ca, v) && ChildrenLooser(s, s, ca, cb, v);
    assert OneOfAgrees(s, s, cb, ca, v) && OneOfAgrees(s, s, ca, cb, v);
    hide Accepts, ChildrenLooser, OneOfAgrees;
    if Accepts(sem, s, ca, v) {
      StepLoosens(sem, s, s, ca, cb, v);
    }
    if Accepts(sem, s, cb, v) {
      StepLoosens(sem, s, s, cb, ca, v);
    }
  }

  lemma PartIsSmaller(slot: Slot, v: Instance, w: Instance)
    requires IsPartOf(slot, v, w)
    ensures if JudgesWhole(slot) then w == v else w < v
  {
    if v.Object? && w in v.members.Values {
      var name :| name in v.members && v.members[name] == w;
    }
  }

  /** Every registry whose ref cycles pass through properties or items has a meaning. */
  lemma GuardedRegistryHasMeaning(reg: Registry, sem: Semantics, rank: Rank) returns (valid: Validity)
    requires Guarded(reg, rank)
    ensures Models(reg, sem, valid)
  {
    valid := (base, s, v) => Meaning(reg, sem, rank, base, s, v);
    forall base, s, v ensures Equation(reg, sem, valid, base, s, v) {
      if s.ObjectSchema? {
        MeaningOfObject(reg, sem, rank, base, s, v, (c, w) => valid(base, c, w));
      }
    }
  }

  lemma MeaningOfObject(
      reg: Registry, sem: Semantics, rank: Rank, base: Text, s: Schema, v: Instance, child: (Schema, Instance) -> bool)
    requires Guarded(reg, rank) && s.ObjectSchema?
    requires forall c, w :: child(c, w) <==> Meaning(reg, sem, rank, base, c, w)
    ensures Meaning(reg, sem, rank, base, s, v) <==> Accepts(sem, s, child, v)
  {
    var guarded: (Schema, Instance) -> bool :=
      (c, w) => (w < v || (w == v && c < s && rank(base, c) <= rank(base, s))) && Meaning(reg, sem, rank, base, c, w);
    forall slot, w | Has(s, slot) && IsPartOf(slot, v, w) ensures guarded(At(s, slot), w) <==> child(At(s, slot), w) {
      PartIsSmaller(slot, v, w);
    }
    OnlyPartsMatter(sem, s, guarded, child, v);
  }

  /** No bare `$ref`: wherever the fragment judges the instance itself, it does so without one. */
  ghost predicate NoBareRef(s: Schema)
    decreases s
  {
    !s.RefSchema? && forall slot :: Has(s, slot) && JudgesWhole(slot) ==> NoBareRef(At(s, slot))
  }

  /** Fragments may refer to themselves and each other freely below properties and items. */
  lemma RecursiveFragmentsHaveMeaning(reg: Registry, sem: Semantics) returns (valid: Validity)
    requires forall k :: k in reg.contents ==> NoBareRef(reg.contents[k])
    ensures Models(reg, sem, valid)
  {
    var rank: Rank := (base, s) => if NoBareRef(s) then 0 else 1;
    assert forall base, target :: RefFalls(reg, rank, base, target);
    valid := GuardedRegistryHasMeaning(reg, sem, rank);
  }
}
