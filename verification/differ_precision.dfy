/** When the differ raises a breaking finding, in terms of what schemas accept. */
module DifferPrecision {
  import opened Outcomes
  import opened Sorting
  import opened JsonSchema
  import opened SchemaDiffer
  import opened DifferSoundness
  import opened DifferLimits
  import opened DifferFindings

  // ----- breaking findings of one keyword

  ghost predicate Raises(fs: seq<Finding>) {
    exists f :: f in fs && f.severity == Breaking
  }

  lemma RaisesEither(role: Role, a: seq<Change>, b: seq<Change>)
    ensures Raises(Graded(role, a + b)) <==> Raises(Graded(role, a)) || Raises(Graded(role, b))
  {
    GradedAdds(role, a, b);
  }

  lemma NothingRaises(role: Role)
    ensures !Raises(Graded(role, []))
  {
  }

  /** A list of types loses: something allowed no longer is, or the list was dropped, which is told as a loss too. */
  ghost predicate TypesLose(a: Option<set<Text>>, b: Option<set<Text>>) {
    SetLoses(a, b) || (b.None? && exists t :: Lists(a, t))
  }

  /** An enum loses: a literal both enums could list, or the enum itself. */
  ghost predicate EnumLoses(a: Option<set<Text>>, b: Option<set<Text>>) {
    a.Some? && (b.None? || SetLoses(a, b))
  }

  lemma SetRaises(role: Role, pointer: Pointer, rule: Rule, effect: Effect, whole: bool, names: set<Text>)
    requires effect.Narrowed? || effect.Widened?
    ensures Raises(Graded(role, SetChange(pointer, rule, effect, whole, names))) <==>
              Alarm(role, (whole || names != {}) && effect.Narrowed?, (whole || names != {}) && effect.Widened?)
  {
    var cs := SetChange(pointer, rule, effect, whole, names);
    if cs != [] {
      OneRaises(role, cs[0]);
    }
  }

  lemma OneRaises(role: Role, c: Change)
    ensures Raises(Graded(role, [c])) <==> SeverityFor(role, c.effect) == Breaking
    ensures !Raises(Graded(role, []))
  {
    OneFinding(role, c, Grade(role, c));
    assert Graded(role, [c]) == [Grade(role, c)];
  }

  lemma DifferenceIsLoss(a: Option<set<Text>>, b: Option<set<Text>>)
    ensures Difference(a, b) != {} <==> exists t :: Lists(a, t) && !Lists(b, t)
  {
    if t :| Lists(a, t) && !Lists(b, t) {
      assert t in Difference(a, b);
    }
    if Difference(a, b) != {} {
      var t :| t in Difference(a, b);
      assert Lists(a, t) && !Lists(b, t);
    }
  }

  lemma TypeSideLoses(a: Option<set<Text>>, b: Option<set<Text>>)
    ensures TypesLose(a, b) <==> (a.None? && b.Some?) || Difference(a, b) != {}
  {
    hide SetLoses;
    SetLosesIff(a, b);
    DifferenceIsLoss(a, b);
    if b.Some? && a.Some? && exists t :: t in a.value && t !in b.value {
      var t :| t in a.value && t !in b.value;
      assert t in Difference(a, b);
    }
    if Difference(a, b) != {} {
      var t :| Lists(a, t) && !Lists(b, t);
    }
  }

  lemma EnumSideLoses(a: Option<set<Text>>, b: Option<set<Text>>)
    ensures EnumLoses(a, b) <==> (a.Some? && b.None?) || Difference(a, b) != {}
  {
    hide SetLoses;
    SetLosesIff(a, b);
    if b.Some? && a.Some? && exists t :: t in a.value && t !in b.value {
      var t :| t in a.value && t !in b.value;
      assert t in Difference(a, b);
    }
  }

  lemma TypeRaises(role: Role, o: Option<set<Text>>, n: Option<set<Text>>, pointer: Pointer)
    ensures Raises(Graded(role, TypeChanges(o, n, pointer))) <==> Alarm(role, TypesLose(o, n), TypesLose(n, o))
  {
    hide Graded, SetChange, Difference, TypesLose, Raises;
    TypeSideLoses(o, n);
    TypeSideLoses(n, o);
    var lost := SetChange(pointer, TypeRule, Narrowed, o.None? && n.Some?, Difference(o, n));
    var gained := SetChange(pointer, TypeRule, Widened, n.None? && o.Some?, Difference(n, o));
    SetRaises(role, pointer, TypeRule, Narrowed, o.None? && n.Some?, Difference(o, n));
    SetRaises(role, pointer, TypeRule, Widened, n.None? && o.Some?, Difference(n, o));
    RaisesEither(role, lost, gained);
    if o == n {
      SameSets(role, o);
    }
  }

  lemma SameSets(role: Role, s: Option<set<Text>>)
    ensures !Raises(Graded(role, [])) && Difference(s, s) == {}
  {
  }

  lemma EnumRaises(role: Role, o: Option<set<Text>>, n: Option<set<Text>>, pointer: Pointer)
    ensures Raises(Graded(role, EnumChanges(o, n, pointer))) <==> Alarm(role, EnumLoses(o, n), EnumLoses(n, o))
  {
    hide Graded, SetChange, Difference, EnumLoses, Raises;
    EnumSideLoses(o, n);
    EnumSideLoses(n, o);
    var lost := SetChange(pointer, EnumRule, Narrowed, o.Some? && n.None?, Difference(o, n));
    var gained := SetChange(pointer, EnumRule, Widened, n.Some? && o.None?, Difference(n, o));
    SetRaises(role, pointer, EnumRule, Narrowed, o.Some? && n.None?, Difference(o, n));
    SetRaises(role, pointer, EnumRule, Widened, n.Some? && o.None?, Difference(n, o));
    RaisesEither(role, lost, gained);
    if o == n {
      SameSets(role, o);
    }
  }

  /** A telling finding can be breaking exactly when there is cause for alarm. */
  lemma TellsBreaking(role: Role, pointer: Pointer, rule: Rule, subject: Subject, lost: bool, gained: bool, f: Finding)
    ensures Tells(f, role, pointer, rule, subject, lost, gained) && f.severity == Breaking ==> Alarm(role, lost, gained)
    ensures Alarm(role, lost, gained) ==>
              Tells(Finding(pointer, rule, Breaking, role, subject), role, pointer, rule, subject, lost, gained)
  {
  }

  ghost predicate MaxAlarm(role: Role, o: map<Quantity, real>, n: map<Quantity, real>, q: Quantity) {
    Alarm(role, MaxLoses(BoundFor(o, q), BoundFor(n, q)), MaxLoses(BoundFor(n, q), BoundFor(o, q)))
  }

  ghost predicate MinAlarm(role: Role, o: map<Quantity, real>, n: map<Quantity, real>, q: Quantity) {
    Alarm(role, MinLoses(BoundFor(o, q), BoundFor(n, q)), MinLoses(BoundFor(n, q), BoundFor(o, q)))
  }

  ghost predicate RequiredAlarm(role: Role, o: set<Text>, n: set<Text>, name: Text) {
    Alarm(role, RequiredLoses(o, n, name), RequiredLoses(n, o, name))
  }

  ghost predicate PatternAlarm(role: Role, o: Option<Text>, n: Option<Text>) {
    Alarm(role, PatternLoses(o, n), PatternLoses(n, o) && !PatternLoses(o, n))
  }

  ghost predicate RankAlarm(role: Role, o: Additional, n: Additional) {
    !(o.Values? && n.Values?) && Alarm(role, ExtrasLose(o, n), ExtrasLose(n, o))
  }

  ghost predicate ItemsAlarm(role: Role, o: Items, n: Items) {
    IsPlain(o) && IsPlain(n) && !(o.One? && n.One?) && Alarm(role, ElementsLose(o, n), ElementsLose(n, o))
  }

  ghost predicate CombinatorAlarm(role: Role, o: Combinator, n: Combinator, name: CombinatorName) {
    || Incomparable(o, n)
    || (o.NoCombinator? && n.Branches? && Alarm(role, BranchesLose(o, n, name), false))
    || (o.Branches? && n.NoCombinator? && Alarm(role, false, BranchesLose(n, o, name)))
  }

  /** A property or pattern of one side only. */
  ghost predicate OneSidedAlarm(role: Role, o: Schema, n: Schema, slot: Slot)
    requires o.ObjectSchema? && n.ObjectSchema?
  {
    && (slot.Property? || slot.PatternProperty?) && Has(o, slot) != Has(n, slot)
    && if Has(o, slot) then Alarm(role, MemberLoses(o, n, slot), slot.PatternProperty? && !MemberLoses(o, n, slot))
       else Alarm(role, false, MemberLoses(n, o, slot))
  }

  lemma MaxRaises(role: Role, o: map<Quantity, real>, n: map<Quantity, real>, pointer: Pointer)
    ensures Raises(Graded(role, MaxChanges(o, n, QUANTITIES, pointer))) <==> exists q :: MaxAlarm(role, o, n, q)
  {
    hide MaxChanges, MaxLoses, Tells, Alarm, BoundFor, Graded;
    forall f ensures f in Graded(role, MaxChanges(o, n, QUANTITIES, pointer)) <==> exists q :: TellsMax(f, role, o, n, q, pointer) {
      MaxFindings(role, o, n, pointer, f);
    }
    forall q, f ensures TellsMax(f, role, o, n, q, pointer) && f.severity == Breaking ==> MaxAlarm(role, o, n, q) {
      TellsBreaking(role, pointer, MaxRule(q), Keyword, MaxLoses(BoundFor(o, q), BoundFor(n, q)),
                    MaxLoses(BoundFor(n, q), BoundFor(o, q)), f);
    }
    if q :| MaxAlarm(role, o, n, q) {
      var f := Finding(pointer, MaxRule(q), Breaking, role, Keyword);
      TellsBreaking(role, pointer, MaxRule(q), Keyword, MaxLoses(BoundFor(o, q), BoundFor(n, q)),
                    MaxLoses(BoundFor(n, q), BoundFor(o, q)), f);
      assert TellsMax(f, role, o, n, q, pointer);
    }
  }

  lemma MinRaises(role: Role, o: map<Quantity, real>, n: map<Quantity, real>, pointer: Pointer)
    ensures Raises(Graded(role, MinChanges(o, n, QUANTITIES, pointer))) <==> exists q :: MinAlarm(role, o, n, q)
  {
    hide MinChanges, MinLoses, Tells, Alarm, BoundFor, Graded;
    forall f ensures f in Graded(role, MinChanges(o, n, QUANTITIES, pointer)) <==> exists q :: TellsMin(f, role, o, n, q, pointer) {
      MinFindings(role, o, n, pointer, f);
    }
    forall q, f ensures TellsMin(f, role, o, n, q, pointer) && f.severity == Breaking ==> MinAlarm(role, o, n, q) {
      TellsBreaking(role, pointer, MinRule(q), Keyword, MinLoses(BoundFor(o, q), BoundFor(n, q)),
                    MinLoses(BoundFor(n, q), BoundFor(o, q)), f);
    }
    if q :| MinAlarm(role, o, n, q) {
      var f := Finding(pointer, MinRule(q), Breaking, role, Keyword);
      TellsBreaking(role, pointer, MinRule(q), Keyword, MinLoses(BoundFor(o, q), BoundFor(n, q)),
                    MinLoses(BoundFor(n, q), BoundFor(o, q)), f);
      assert TellsMin(f, role, o, n, q, pointer);
    }
  }

  lemma RequiredRaises(role: Role, o: set<Text>, n: set<Text>, pointer: Pointer)
    ensures Raises(Graded(role, RequiredChanges(o, n, pointer))) <==> exists name :: RequiredAlarm(role, o, n, name)
  {
    hide RequiredChanges, RequiredLoses, Tells, Alarm, Graded;
    forall f ensures f in Graded(role, RequiredChanges(o, n, pointer)) <==> exists name :: TellsRequired(f, role, o, n, name, pointer) {
      RequiredFindings(role, o, n, pointer, f);
    }
    forall name, f ensures TellsRequired(f, role, o, n, name, pointer) && f.severity == Breaking ==> RequiredAlarm(role, o, n, name) {
      TellsBreaking(role, pointer, RequiredRule, Names({name}), RequiredLoses(o, n, name), RequiredLoses(n, o, name), f);
    }
    if name :| RequiredAlarm(role, o, n, name) {
      var f := Finding(pointer, RequiredRule, Breaking, role, Names({name}));
      TellsBreaking(role, pointer, RequiredRule, Names({name}), RequiredLoses(o, n, name), RequiredLoses(n, o, name), f);
      assert TellsRequired(f, role, o, n, name, pointer);
    }
  }

  /** The one change a keyword makes, if any, decides. */
  lemma AtMostOneRaises(role: Role, cs: seq<Change>)
    requires |cs| <= 1
    ensures Raises(Graded(role, cs)) <==> cs != [] && SeverityFor(role, cs[0].effect) == Breaking
  {
    if cs == [] {
      NothingRaises(role);
    } else {
      assert cs == [cs[0]];
      OneRaises(role, cs[0]);
    }
  }

  lemma PatternRaises(role: Role, o: Option<Text>, n: Option<Text>, pointer: Pointer)
    ensures Raises(Graded(role, PatternChanges(o, n, pointer))) <==> PatternAlarm(role, o, n)
  {
    hide PatternLoses, Raises;
    PatternLosesIff(o, n);
    PatternLosesIff(n, o);
    AtMostOneRaises(role, PatternChanges(o, n, pointer));
  }

  lemma RankRaises(role: Role, o: Additional, n: Additional, pointer: Pointer)
    ensures Raises(Graded(role, RankChanges(o, n, pointer))) <==> RankAlarm(role, o, n)
  {
    hide ExtrasLose, Raises;
    ExtrasLoseIff(o, n);
    ExtrasLoseIff(n, o);
    AtMostOneRaises(role, RankChanges(o, n, pointer));
  }

  lemma ItemsRaises(role: Role, o: Items, n: Items, pointer: Pointer)
    ensures Raises(Graded(role, ItemsChanges(o, n, pointer))) <==> ItemsAlarm(role, o, n)
  {
    hide ElementsLose, Raises;
    ElementsLoseIff(o, n);
    ElementsLoseIff(n, o);
    AtMostOneRaises(role, ItemsChanges(o, n, pointer));
  }

  lemma CombinatorRaises(role: Role, o: Combinator, n: Combinator, name: CombinatorName, pointer: Pointer)
    ensures Raises(Graded(role, CombinatorChanges(o, n, name, pointer))) <==> CombinatorAlarm(role, o, n, name)
  {
    hide BranchesLose, Raises;
    if o.NoCombinator? {
      BranchesLoseIff(o, n, name);
    }
    if n.NoCombinator? {
      BranchesLoseIff(n, o, name);
    }
    AtMostOneRaises(role, CombinatorChanges(o, n, name, pointer));
  }

  lemma OneSidedRaises(role: Role, scope: Scope, o: Schema, n: Schema, slot: Slot, pointer: Pointer, depth: nat)
    requires o.ObjectSchema? && n.ObjectSchema? && depth <= MAX_COMPARE_DEPTH
    requires Has(o, slot) != Has(n, slot) && (slot.Property? || slot.PatternProperty?)
    ensures Raises(Graded(role, OneSlotChanges(scope, o, n, slot, pointer, depth))) <==> OneSidedAlarm(role, o, n, slot)
  {
    hide MemberLoses, Changes, Raises, Has;
    MemberLosesIff(o, n, slot);
    MemberLosesIff(n, o, slot);
    AtMostOneRaises(role, OneSlotChanges(scope, o, n, slot, pointer, depth));
  }

  // ----- whole nodes

  /** Cause for alarm in a keyword that looks at the value alone, or at how many and which members and elements there are. */
  ghost predicate KeywordAlarm(role: Role, o: Schema, n: Schema)
    requires o.ObjectSchema? && n.ObjectSchema?
  {
    || Alarm(role, TypesLose(o.types, n.types), TypesLose(n.types, o.types))
    || Alarm(role, EnumLoses(o.enum, n.enum), EnumLoses(n.enum, o.enum))
    || RankAlarm(role, o.additional, n.additional)
    || PatternAlarm(role, o.pattern, n.pattern)
    || (exists q :: MaxAlarm(role, o.max, n.max, q))
    || (exists q :: MinAlarm(role, o.min, n.min, q))
    || (exists name :: RequiredAlarm(role, o.required, n.required, name))
    || ItemsAlarm(role, o.items, n.items)
  }

  /** Cause for alarm in the node itself. */
  ghost predicate OwnAlarm(role: Role, o: Schema, n: Schema)
    requires o.ObjectSchema? && n.ObjectSchema?
  {
    || KeywordAlarm(role, o, n)
    || (exists slot :: OneSidedAlarm(role, o, n, slot))
    || exists name :: CombinatorAlarm(role, CombinatorOf(o, name), CombinatorOf(n, name), name)
  }

  /** A breaking finding of the node itself gives cause for alarm. */
  lemma ToldAlarms(f: Finding, role: Role, scope: Scope, o: Schema, n: Schema, pointer: Pointer, depth: nat)
    requires o.ObjectSchema? && n.ObjectSchema? && depth <= MAX_COMPARE_DEPTH
    requires TellsOwn(f, role, o, n, pointer) && f.severity == Breaking
    ensures OwnAlarm(role, o, n)
  {
    hide TellsKeyword, KeywordAlarm, TellsOneSided, TellsCombinator, OneSidedAlarm, CombinatorAlarm;
    if TellsKeyword(f, role, o, n, pointer) {
      KeywordAlarms(f, role, o, n, pointer);
    } else if slot :| TellsOneSided(f, role, o, n, slot, pointer) {
      OneSidedAlarms(f, role, scope, o, n, slot, pointer, depth);
    } else {
      var name :| TellsCombinator(f, role, CombinatorOf(o, name), CombinatorOf(n, name), name, pointer);
      CombinatorAlarms(f, role, CombinatorOf(o, name), CombinatorOf(n, name), name, pointer);
    }
  }

  lemma KeywordAlarms(f: Finding, role: Role, o: Schema, n: Schema, pointer: Pointer)
    requires o.ObjectSchema? && n.ObjectSchema? && TellsKeyword(f, role, o, n, pointer) && f.severity == Breaking
    ensures KeywordAlarm(role, o, n)
  {
    hide TypeChanges, EnumChanges, RankChanges, PatternChanges, MaxChanges, MinChanges, RequiredChanges, ItemsChanges, Graded,
      TellsMax, TellsMin, TellsRequired, TellsRank, TellsItems, TellsPattern, TellsSet, MaxAlarm, MinAlarm, RequiredAlarm,
      RankAlarm, ItemsAlarm, PatternAlarm, TypesLose, EnumLoses, Alarm;
    KeywordFindings(f, role, o, n, pointer);
    KeywordRaises(role, o, n, pointer);
  }

  /** The findings of each keyword. */
  lemma KeywordFindings(f: Finding, role: Role, o: Schema, n: Schema, pointer: Pointer)
    requires o.ObjectSchema? && n.ObjectSchema?
    ensures TellsKeyword(f, role, o, n, pointer) <==>
              || f in Graded(role, TypeChanges(o.types, n.types, pointer))
              || f in Graded(role, EnumChanges(o.enum, n.enum, pointer))
              || f in Graded(role, RankChanges(o.additional, n.additional, pointer))
              || f in Graded(role, PatternChanges(o.pattern, n.pattern, pointer))
              || f in Graded(role, MaxChanges(o.max, n.max, QUANTITIES, pointer))
              || f in Graded(role, MinChanges(o.min, n.min, QUANTITIES, pointer))
              || f in Graded(role, RequiredChanges(o.required, n.required, pointer))
              || f in Graded(role, ItemsChanges(o.items, n.items, pointer))
  {
    hide TypeChanges, EnumChanges, RankChanges, PatternChanges, MaxChanges, MinChanges, RequiredChanges, ItemsChanges, Graded,
      TellsMax, TellsMin, TellsRequired, TellsRank, TellsItems, TellsPattern, TellsSet;
    TypeFindings(role, o.types, n.types, pointer, f);
    EnumFindings(role, o.enum, n.enum, pointer, f);
    RankFindings(role, o.additional, n.additional, pointer, f);
    PatternFindings(role, o.pattern, n.pattern, pointer, f);
    MaxFindings(role, o.max, n.max, pointer, f);
    MinFindings(role, o.min, n.min, pointer, f);
    RequiredFindings(role, o.required, n.required, pointer, f);
    ItemsFindings(role, o.items, n.items, pointer, f);
  }

  /** Cause for alarm in a keyword is a breaking finding of some keyword. */
  lemma KeywordRaises(role: Role, o: Schema, n: Schema, pointer: Pointer)
    requires o.ObjectSchema? && n.ObjectSchema?
    ensures KeywordAlarm(role, o, n) <==>
              || Raises(Graded(role, TypeChanges(o.types, n.types, pointer)))
              || Raises(Graded(role, EnumChanges(o.enum, n.enum, pointer)))
              || Raises(Graded(role, RankChanges(o.additional, n.additional, pointer)))
              || Raises(Graded(role, PatternChanges(o.pattern, n.pattern, pointer)))
              || Raises(Graded(role, MaxChanges(o.max, n.max, QUANTITIES, pointer)))
              || Raises(Graded(role, MinChanges(o.min, n.min, QUANTITIES, pointer)))
              || Raises(Graded(role, RequiredChanges(o.required, n.required, pointer)))
              || Raises(Graded(role, ItemsChanges(o.items, n.items, pointer)))
  {
    hide TypeChanges, EnumChanges, RankChanges, PatternChanges, MaxChanges, MinChanges, RequiredChanges, ItemsChanges, Graded,
      Raises, MaxAlarm, MinAlarm, RequiredAlarm, RankAlarm, ItemsAlarm, PatternAlarm, TypesLose, EnumLoses, Alarm;
    TypeRaises(role, o.types, n.types, pointer);
    EnumRaises(role, o.enum, n.enum, pointer);
    RankRaises(role, o.additional, n.additional, pointer);
    PatternRaises(role, o.pattern, n.pattern, pointer);
    MaxRaises(role, o.max, n.max, pointer);
    MinRaises(role, o.min, n.min, pointer);
    RequiredRaises(role, o.required, n.required, pointer);
    ItemsRaises(role, o.items, n.items, pointer);
  }

  lemma OneSidedAlarms(f: Finding, role: Role, scope: Scope, o: Schema, n: Schema, slot: Slot, pointer: Pointer, depth: nat)
    requires o.ObjectSchema? && n.ObjectSchema? && depth <= MAX_COMPARE_DEPTH
    requires TellsOneSided(f, role, o, n, slot, pointer) && f.severity == Breaking
    ensures OneSidedAlarm(role, o, n, slot)
  {
    OneSidedExists(f, role, o, n, slot, pointer);
    hide TellsOneSided, OneSlotChanges, OneSidedAlarm, Graded, Has;
    OneSidedFindings(role, scope, o, n, slot, pointer, depth, f);
    OneSidedRaises(role, scope, o, n, slot, pointer, depth);
  }

  lemma OneSidedExists(f: Finding, role: Role, o: Schema, n: Schema, slot: Slot, pointer: Pointer)
    requires o.ObjectSchema? && n.ObjectSchema? && TellsOneSided(f, role, o, n, slot, pointer)
    ensures Has(o, slot) != Has(n, slot) && (slot.Property? || slot.PatternProperty?)
  {
    hide TellsRemoved, TellsAdded, Has;
  }

  lemma CombinatorAlarms(f: Finding, role: Role, o: Combinator, n: Combinator, name: CombinatorName, pointer: Pointer)
    requires TellsCombinator(f, role, o, n, name, pointer) && f.severity == Breaking
    ensures CombinatorAlarm(role, o, n, name)
  {
    hide TellsCombinator, CombinatorAlarm, CombinatorChanges, Graded;
    CombinatorFindings(role, o, n, name, pointer, f);
    CombinatorRaises(role, o, n, name, pointer);
  }

  /** Cause for alarm in the node itself is a breaking finding of its own. */
  lemma AlarmTold(role: Role, scope: Scope, o: Schema, n: Schema, pointer: Pointer, depth: nat) returns (f: Finding)
    requires o.ObjectSchema? && n.ObjectSchema? && depth <= MAX_COMPARE_DEPTH && OwnAlarm(role, o, n)
    ensures TellsOwn(f, role, o, n, pointer) && f.severity == Breaking
  {
    hide TellsKeyword, KeywordAlarm, TellsOneSided, TellsCombinator, OneSidedAlarm, CombinatorAlarm, OneSlotChanges,
      CombinatorChanges, Graded, TypeChanges, EnumChanges, RankChanges, PatternChanges, MaxChanges, MinChanges, RequiredChanges,
      ItemsChanges;
    if KeywordAlarm(role, o, n) {
      KeywordRaises(role, o, n, pointer);
      f := BreakingKeyword(role, o, n, pointer);
    } else if slot :| OneSidedAlarm(role, o, n, slot) {
      AlarmIsOneSided(role, o, n, slot);
      OneSidedRaises(role, scope, o, n, slot, pointer, depth);
      f :| f in Graded(role, OneSlotChanges(scope, o, n, slot, pointer, depth)) && f.severity == Breaking;
      OneSidedFindings(role, scope, o, n, slot, pointer, depth, f);
    } else {
      var name :| CombinatorAlarm(role, CombinatorOf(o, name), CombinatorOf(n, name), name);
      CombinatorRaises(role, CombinatorOf(o, name), CombinatorOf(n, name), name, pointer);
      f :| f in Graded(role, CombinatorChanges(CombinatorOf(o, name), CombinatorOf(n, name), name, pointer)) && f.severity == Breaking;
      CombinatorFindings(role, CombinatorOf(o, name), CombinatorOf(n, name), name, pointer, f);
    }
  }

  lemma AlarmIsOneSided(role: Role, o: Schema, n: Schema, slot: Slot)
    requires o.ObjectSchema? && n.ObjectSchema? && OneSidedAlarm(role, o, n, slot)
    ensures Has(o, slot) != Has(n, slot) && (slot.Property? || slot.PatternProperty?)
  {
    hide Has, MemberLoses, Alarm;
  }

  lemma BreakingKeyword(role: Role, o: Schema, n: Schema, pointer: Pointer) returns (f: Finding)
    requires o.ObjectSchema? && n.ObjectSchema? && KeywordAlarm(role, o, n)
    ensures TellsKeyword(f, role, o, n, pointer) && f.severity == Breaking
  {
    hide TellsKeyword, KeywordAlarm, Graded, TypeChanges, EnumChanges, RankChanges, PatternChanges, MaxChanges, MinChanges,
      RequiredChanges, ItemsChanges;
    KeywordRaises(role, o, n, pointer);
    forall f ensures TellsKeyword(f, role, o, n, pointer) <==>
              || f in Graded(role, TypeChanges(o.types, n.types, pointer))
              || f in Graded(role, EnumChanges(o.enum, n.enum, pointer))
              || f in Graded(role, RankChanges(o.additional, n.additional, pointer))
              || f in Graded(role, PatternChanges(o.pattern, n.pattern, pointer))
              || f in Graded(role, MaxChanges(o.max, n.max, QUANTITIES, pointer))
              || f in Graded(role, MinChanges(o.min, n.min, QUANTITIES, pointer))
              || f in Graded(role, RequiredChanges(o.required, n.required, pointer))
              || f in Graded(role, ItemsChanges(o.items, n.items, pointer))
    {
      KeywordFindings(f, role, o, n, pointer);
    }
    f :| TellsKeyword(f, role, o, n, pointer) && f.severity == Breaking;
  }

  /** A place both sides have raises something breaking itself. */
  ghost predicate SharedRaises(role: Role, scope: Scope, o: Schema, n: Schema, slot: Slot, pointer: Pointer, depth: nat)
    requires depth <= MAX_COMPARE_DEPTH
  {
    Has(o, slot) && Has(n, slot)
    && Raises(Graded(role, Changes(scope, At(o, slot), At(n, slot), pointer + [slot], depth + 1)))
  }

  /** Some subschema both sides have, and the comparator looks into, raises something breaking. */
  ghost predicate SomeSharedRaises(role: Role, scope: Scope, o: Schema, n: Schema, pointer: Pointer, depth: nat)
    requires depth <= MAX_COMPARE_DEPTH
  {
    exists slot :: IsCompared(slot) && SharedRaises(role, scope, o, n, slot, pointer, depth)
  }

  /**
   A comparison of two schema objects raises something breaking exactly when a keyword, a property
   of one side only or a combinator gives cause for alarm, or a subschema both sides have does.
   */
  lemma NodeRaises(role: Role, scope: Scope, o: Schema, n: Schema, pointer: Pointer, depth: nat)
    requires o.ObjectSchema? && n.ObjectSchema? && depth <= MAX_COMPARE_DEPTH
    ensures Raises(Graded(role, FirstParts(scope, o, n, PARTS, pointer, depth))) <==>
            OwnAlarm(role, o, n) || SomeSharedRaises(role, scope, o, n, pointer, depth)
  {
    hide FirstParts, TellsOwn, FoundInside, Graded, OwnAlarm, SharedRaises;
    if f :| f in Graded(role, FirstParts(scope, o, n, PARTS, pointer, depth)) && f.severity == Breaking {
      NodeFindings(role, scope, o, n, pointer, depth, f);
      if TellsOwn(f, role, o, n, pointer) {
        ToldAlarms(f, role, scope, o, n, pointer, depth);
      } else {
        InsideRaises(f, role, scope, o, n, pointer, depth);
      }
    }
    if OwnAlarm(role, o, n) {
      var f := AlarmTold(role, scope, o, n, pointer, depth);
      NodeFindings(role, scope, o, n, pointer, depth, f);
    }
    if !OwnAlarm(role, o, n) && SomeSharedRaises(role, scope, o, n, pointer, depth) {
      var slot :| IsCompared(slot) && SharedRaises(role, scope, o, n, slot, pointer, depth);
      var f := RaisedInside(role, scope, o, n, slot, pointer, depth);
      NodeFindings(role, scope, o, n, pointer, depth, f);
    }
  }

  lemma InsideRaises(f: Finding, role: Role, scope: Scope, o: Schema, n: Schema, pointer: Pointer, depth: nat)
    requires depth <= MAX_COMPARE_DEPTH && FoundInside(f, role, scope, o, n, pointer, depth) && f.severity == Breaking
    ensures SomeSharedRaises(role, scope, o, n, pointer, depth)
  {
    hide Changes, Graded, Has, Comparable;
    var slot :| IsLookedInto(o, n, slot) && FoundBelow(f, role, scope, o, n, slot, pointer, depth);
    assert SharedRaises(role, scope, o, n, slot, pointer, depth);
  }

  /** Branches are looked into unless their number differs, which is an alarm by itself. */
  lemma RaisedInside(role: Role, scope: Scope, o: Schema, n: Schema, slot: Slot, pointer: Pointer, depth: nat) returns (f: Finding)
    requires o.ObjectSchema? && n.ObjectSchema? && depth <= MAX_COMPARE_DEPTH
    requires IsCompared(slot) && SharedRaises(role, scope, o, n, slot, pointer, depth) && !OwnAlarm(role, o, n)
    ensures FoundInside(f, role, scope, o, n, pointer, depth) && f.severity == Breaking
  {
    hide Changes, Graded, KeywordAlarm, OneSidedAlarm, BranchesLose;
    f :| f in Graded(role, Changes(scope, At(o, slot), At(n, slot), pointer + [slot], depth + 1)) && f.severity == Breaking;
    assert slot.Branch? ==>
      !CombinatorAlarm(role, CombinatorOf(o, slot.combinator), CombinatorOf(n, slot.combinator), slot.combinator);
    assert IsLookedInto(o, n, slot) && FoundBelow(f, role, scope, o, n, slot, pointer, depth);
  }

  // ----- whole comparisons

  /** Cause for alarm somewhere the comparison goes. */
  ghost predicate Broken(role: Role, scope: Scope, oldRaw: Schema, newRaw: Schema, depth: nat)
    requires depth <= MAX_COMPARE_DEPTH + 1
    decreases MAX_COMPARE_DEPTH + 1 - depth
  {
    var r := ResolvePair(scope, oldRaw, newRaw, [], depth);
    || (depth <= MAX_COMPARE_DEPTH && Dangles(scope, oldRaw, newRaw))
    || (r.Pair? &&
          (|| OwnAlarm(role, r.older, r.newer)
           || exists slot :: IsCompared(slot) && Has(r.older, slot) && Has(r.newer, slot) &&
                Broken(role, r.scope, At(r.older, slot), At(r.newer, slot), depth + 1)))
  }

  lemma EndedRaises(role: Role, scope: Scope, oldRaw: Schema, newRaw: Schema, pointer: Pointer, depth: nat)
    requires depth <= MAX_COMPARE_DEPTH + 1
    ensures var r, s := ResolvePair(scope, oldRaw, newRaw, [], depth), ResolvePair(scope, oldRaw, newRaw, pointer, depth);
            && (r.Pair? <==> s.Pair?)
            && (r.Pair? ==> r == s && !Dangles(scope, oldRaw, newRaw))
            && (s.Ended? ==> |s.changes| <= 1)
            && (s.Ended? ==> (s.changes != [] && SeverityFor(role, s.changes[0].effect) == Breaking <==>
                                depth <= MAX_COMPARE_DEPTH && Dangles(scope, oldRaw, newRaw)))
  {
    hide DerefFrom;
  }

  /**
   The comparator raises a breaking finding exactly when a `$ref` dangles or some node it reaches
   gives cause for alarm.
   */
  lemma {:induction false} RaisesIffBroken(role: Role, scope: Scope, oldRaw: Schema, newRaw: Schema, pointer: Pointer, depth: nat)
    requires depth <= MAX_COMPARE_DEPTH + 1
    ensures Raises(Graded(role, Changes(scope, oldRaw, newRaw, pointer, depth))) <==> Broken(role, scope, oldRaw, newRaw, depth)
    decreases MAX_COMPARE_DEPTH + 1 - depth
  {
    hide Graded, Raises, FirstParts, ResolvePair, OwnAlarm, Dangles, SeverityFor;
    EndedRaises(role, scope, oldRaw, newRaw, pointer, depth);
    var r := ResolvePair(scope, oldRaw, newRaw, pointer, depth);
    if r.Pair? {
      NodeRaises(role, r.scope, r.older, r.newer, pointer, depth);
      forall slot | Has(r.older, slot) && Has(r.newer, slot)
        ensures SharedRaises(role, r.scope, r.older, r.newer, slot, pointer, depth) <==>
                Broken(role, r.scope, At(r.older, slot), At(r.newer, slot), depth + 1)
      {
        RaisesIffBroken(role, r.scope, At(r.older, slot), At(r.newer, slot), pointer + [slot], depth + 1);
      }
    } else {
      AtMostOneRaises(role, r.changes);
    }
  }

  // ----- no alarm without a loss, but for a few

  /** Keyword by keyword, whatever a accepts b accepts; subschemas both have are left aside. */
  ghost predicate NothingLost(a: Schema, b: Schema)
    requires a.ObjectSchema? && b.ObjectSchema?
  {
    && !SetLoses(a.types, b.types) && !SetLoses(a.enum, b.enum) && !PatternLoses(a.pattern, b.pattern)
    && (forall q :: !MaxLoses(BoundFor(a.max, q), BoundFor(b.max, q)) && !MinLoses(BoundFor(a.min, q), BoundFor(b.min, q)))
    && (forall name :: !RequiredLoses(a.required, b.required, name))
    && ((a.additional.Values? && b.additional.Values?) || !ExtrasLose(a.additional, b.additional))
    && (forall slot: Slot :: (slot.Property? || slot.PatternProperty?) && Has(a, slot) != Has(b, slot) ==> !MemberLoses(a, b, slot))
    && ((a.items.One? && b.items.One?) || !ElementsLose(a.items, b.items))
    && (forall name: CombinatorName :: CombinatorOf(a, name).NoCombinator? ==>
          !BranchesLose(CombinatorOf(a, name), CombinatorOf(b, name), name))
  }

  /**
   The alarms that need no loss: dropping `type` or `enum` on a request, introducing either on a
   response, and combinators that are not compared branch by branch.
   */
  ghost predicate FalseAlarm(role: Role, o: Schema, n: Schema)
    requires o.ObjectSchema? && n.ObjectSchema?
  {
    || Alarm(role, n.types.None? && exists t :: Lists(o.types, t), o.types.None? && exists t :: Lists(n.types, t))
    || Alarm(role, o.enum.Some? && n.enum.None?, o.enum.None? && n.enum.Some?)
    || exists name :: Incomparable(CombinatorOf(o, name), CombinatorOf(n, name))
  }

  /** Those alarms are raised. */
  lemma FalseAlarmsRaise(role: Role, o: Schema, n: Schema)
    requires o.ObjectSchema? && n.ObjectSchema? && FalseAlarm(role, o, n)
    ensures OwnAlarm(role, o, n)
  {
    hide SetLoses, MaxAlarm, MinAlarm, RequiredAlarm, RankAlarm, ItemsAlarm, PatternAlarm, OneSidedAlarm, Incomparable, BranchesLose;
    if name :| Incomparable(CombinatorOf(o, name), CombinatorOf(n, name)) {
      assert CombinatorAlarm(role, CombinatorOf(o, name), CombinatorOf(n, name), name);
    }
  }

  /** A request node that loses nothing gives no other cause for alarm; nor does a response node that gains nothing. */
  lemma NoLossNoAlarm(o: Schema, n: Schema)
    requires o.ObjectSchema? && n.ObjectSchema?
    ensures NothingLost(o, n) && !FalseAlarm(Request, o, n) ==> !OwnAlarm(Request, o, n)
    ensures NothingLost(n, o) && !FalseAlarm(Response, o, n) ==> !OwnAlarm(Response, o, n)
  {
    hide SetLoses, MaxLoses, MinLoses, RequiredLoses, ExtrasLose, ElementsLose, PatternLoses, BranchesLose, BoundFor, FalseAlarm;
    if NothingLost(o, n) && !FalseAlarm(Request, o, n) {
      NoAlarmSingles(Request, o, n, o, n);
      NoAlarmSlots(Request, o, n, o, n);
      NoAlarmCombinators(Request, o, n, o, n);
    }
    if NothingLost(n, o) && !FalseAlarm(Response, o, n) {
      NoAlarmSingles(Response, o, n, n, o);
      NoAlarmSlots(Response, o, n, n, o);
      NoAlarmCombinators(Response, o, n, n, o);
    }
  }

  /** The side that must not lose: the older on a request, the newer on a response. */
  ghost predicate Watched(role: Role, o: Schema, n: Schema, a: Schema, b: Schema) {
    (role.Request? && a == o && b == n) || (role.Response? && a == n && b == o)
  }

  lemma NoAlarmSingles(role: Role, o: Schema, n: Schema, a: Schema, b: Schema)
    requires o.ObjectSchema? && n.ObjectSchema? && a.ObjectSchema? && b.ObjectSchema? && Watched(role, o, n, a, b)
    requires NothingLost(a, b) && !FalseAlarm(role, o, n)
    ensures !KeywordAlarm(role, o, n)
  {
    hide SetLoses, MaxLoses, MinLoses, RequiredLoses, ExtrasLose, ElementsLose, PatternLoses, BranchesLose, BoundFor, MemberLoses,
      Incomparable;
    forall q ensures !MaxAlarm(role, o.max, n.max, q) && !MinAlarm(role, o.min, n.min, q) {}
    forall name ensures !RequiredAlarm(role, o.required, n.required, name) {}
  }

  lemma NoAlarmSlots(role: Role, o: Schema, n: Schema, a: Schema, b: Schema)
    requires o.ObjectSchema? && n.ObjectSchema? && a.ObjectSchema? && b.ObjectSchema? && Watched(role, o, n, a, b)
    requires NothingLost(a, b)
    ensures forall slot :: !OneSidedAlarm(role, o, n, slot)
  {
    hide SetLoses, MaxLoses, MinLoses, RequiredLoses, ExtrasLose, ElementsLose, PatternLoses, BranchesLose, BoundFor, MemberLoses, Has;
    forall slot ensures !OneSidedAlarm(role, o, n, slot) {
      MemberLosesIff(a, b, slot);
      MemberLosesIff(b, a, slot);
    }
  }

  lemma NoAlarmCombinators(role: Role, o: Schema, n: Schema, a: Schema, b: Schema)
    requires o.ObjectSchema? && n.ObjectSchema? && a.ObjectSchema? && b.ObjectSchema? && Watched(role, o, n, a, b)
    requires NothingLost(a, b) && !FalseAlarm(role, o, n)
    ensures forall name :: !CombinatorAlarm(role, CombinatorOf(o, name), CombinatorOf(n, name), name)
  {
    hide SetLoses, MaxLoses, MinLoses, RequiredLoses, ExtrasLose, ElementsLose, PatternLoses, BranchesLose, BoundFor, MemberLoses,
      Incomparable;
  }

  /**
   A request schema whose keywords only loosen gets a breaking finding exactly for one of those
   alarms or from a subschema both sides have; so does a response schema whose keywords only tighten.
   */
  lemma HarmlessEditRaisesIff(role: Role, scope: Scope, o: Schema, n: Schema, pointer: Pointer, depth: nat)
    requires o.ObjectSchema? && n.ObjectSchema? && depth <= MAX_COMPARE_DEPTH && !role.Conservative?
    requires if role.Request? then NothingLost(o, n) else NothingLost(n, o)
    ensures Raises(Graded(role, Changes(scope, o, n, pointer, depth))) <==>
              FalseAlarm(role, o, n) || SomeSharedRaises(role, scope, o, n, pointer, depth)
  {
    hide Graded, Raises, FirstParts, Changes, OwnAlarm, NothingLost, FalseAlarm, SomeSharedRaises;
    ObjectsAreCompared(scope, o, n, pointer, depth);
    NodeRaises(role, scope, o, n, pointer, depth);
    NoLossNoAlarm(o, n);
    if FalseAlarm(role, o, n) {
      FalseAlarmsRaise(role, o, n);
    }
  }

  /** `type` dropped from a request or introduced in a response: every instance stays accepted, and yet it breaks. */
  lemma DroppedTypeBreaks(scope: Scope, s: Schema, pointer: Pointer, depth: nat)
    requires s.ObjectSchema? && s.types.Some? && s.types.value != {} && depth <= MAX_COMPARE_DEPTH
    ensures var free := s.(types := None);
            && (forall sem, child, v :: Accepts(sem, s, child, v) ==> Accepts(sem, free, child, v))
            && Raises(Graded(Request, Changes(scope, s, free, pointer, depth)))
            && Raises(Graded(Response, Changes(scope, free, s, pointer, depth)))
  {
    hide Graded, Raises, FirstParts, Changes, OwnAlarm, SomeSharedRaises;
    var free := s.(types := None);
    var t :| t in s.types.value;
    assert Lists(s.types, t);
    FalseAlarmsRaise(Request, s, free);
    FalseAlarmsRaise(Response, free, s);
    RaisedByNode(Request, scope, s, free, pointer, depth);
    RaisedByNode(Response, scope, free, s, pointer, depth);
    forall sem, child, v | Accepts(sem, s, child, v) ensures Accepts(sem, free, child, v) {
      SameSubschemas(sem, s, free, child, v);
    }
  }

  /** The same of `enum`. */
  lemma DroppedEnumBreaks(scope: Scope, s: Schema, pointer: Pointer, depth: nat)
    requires s.ObjectSchema? && s.enum.Some? && depth <= MAX_COMPARE_DEPTH
    ensures var free := s.(enum := None);
            && (forall sem, child, v :: Accepts(sem, s, child, v) ==> Accepts(sem, free, child, v))
            && Raises(Graded(Request, Changes(scope, s, free, pointer, depth)))
            && Raises(Graded(Response, Changes(scope, free, s, pointer, depth)))
  {
    hide Graded, Raises, FirstParts, Changes, OwnAlarm, SomeSharedRaises;
    var free := s.(enum := None);
    FalseAlarmsRaise(Request, s, free);
    FalseAlarmsRaise(Response, free, s);
    RaisedByNode(Request, scope, s, free, pointer, depth);
    RaisedByNode(Response, scope, free, s, pointer, depth);
    forall sem, child, v | Accepts(sem, s, child, v) ensures Accepts(sem, free, child, v) {
      SameSubschemas(sem, s, free, child, v);
    }
  }

  lemma RaisedByNode(role: Role, scope: Scope, o: Schema, n: Schema, pointer: Pointer, depth: nat)
    requires o.ObjectSchema? && n.ObjectSchema? && depth <= MAX_COMPARE_DEPTH && OwnAlarm(role, o, n)
    ensures Raises(Graded(role, Changes(scope, o, n, pointer, depth)))
  {
    hide Graded, Raises, FirstParts, Changes, OwnAlarm, SomeSharedRaises;
    ObjectsAreCompared(scope, o, n, pointer, depth);
    NodeRaises(role, scope, o, n, pointer, depth);
  }
}
