/** What the differ reports, in terms of what schemas accept. */
module DifferFindings {
  // Which findings there are, keyword by keyword and then for whole comparisons, told by what one
  // side accepts and the other does not.  What a subschema accepts is left open here, for each side
  // by itself: the two sides belong to different trees.

  import opened Outcomes
  import opened Sorting
  import opened JsonSchema
  import opened SchemaDiffer
  import opened DifferSoundness
  import opened DifferLimits

  // ----- findings

  /** Something is lost that requests relied on, or gained that responses relied on not to see. */
  predicate Alarm(role: Role, lost: bool, gained: bool) {
    match role
    case Request => lost
    case Response => gained
    case Conservative => lost || gained
  }

  /** The finding for a change that loses something, or for one that gains something. */
  predicate Tells(f: Finding, role: Role, pointer: Pointer, rule: Rule, subject: Subject, lost: bool, gained: bool) {
    && f.pointer == pointer && f.rule == rule && f.role == role && f.subject == subject
    && (|| (lost && f.severity == if Alarm(role, true, false) then Breaking else Info)
        || (gained && f.severity == if Alarm(role, false, true) then Breaking else Info))
  }

  lemma FindingOf(role: Role, cs: seq<Change>, f: Finding)
    ensures f in Graded(role, cs) <==> exists c :: c in cs && f == Grade(role, c)
  {
    if c :| c in cs && f == Grade(role, c) {
      var i :| 0 <= i < |cs| && cs[i] == c;
      assert Graded(role, cs)[i] == f;
    }
  }

  lemma OneFinding(role: Role, c: Change, f: Finding)
    ensures f in Graded(role, [c]) <==> f == Grade(role, c)
    ensures f !in Graded(role, [])
  {
    assert Graded(role, [c]) == [Grade(role, c)];
  }

  lemma NoneGraded(role: Role, f: Finding)
    ensures f !in Graded(role, [])
  {
  }

  // ----- upper and lower bounds

  predicate AtMost(bound: Option<real>, x: real) {
    bound.None? || x <= bound.value
  }

  predicate AtLeast(bound: Option<real>, x: real) {
    bound.None? || x >= bound.value
  }

  ghost function BoundFor(m: map<Quantity, real>, q: Quantity): Option<real> {
    if q in m then Some(m[q]) else None
  }

  /** Some measure meets a's upper bound and not b's. */
  ghost predicate MaxLoses(a: Option<real>, b: Option<real>) {
    exists x: real :: AtMost(a, x) && !AtMost(b, x)
  }

  ghost predicate MinLoses(a: Option<real>, b: Option<real>) {
    exists x: real :: AtLeast(a, x) && !AtLeast(b, x)
  }

  lemma MaxLosesIff(a: Option<real>, b: Option<real>)
    ensures MaxLoses(a, b) <==> Below(b, a)
  {
    if Below(b, a) {
      var x := if a.Some? then a.value else b.value + 1.0;
      assert AtMost(a, x) && !AtMost(b, x);
    }
  }

  lemma MinLosesIff(a: Option<real>, b: Option<real>)
    ensures MinLoses(a, b) <==> Above(b, a)
  {
    if Above(b, a) {
      var x := if a.Some? then a.value else b.value - 1.0;
      assert AtLeast(a, x) && !AtLeast(b, x);
    }
  }

  /** The finding for some quantity's upper bound. */
  ghost predicate TellsMax(f: Finding, role: Role, o: map<Quantity, real>, n: map<Quantity, real>, q: Quantity, pointer: Pointer) {
    var a, b := BoundFor(o, q), BoundFor(n, q);
    Tells(f, role, pointer, MaxRule(q), Keyword, MaxLoses(a, b), MaxLoses(b, a))
  }

  ghost predicate TellsMin(f: Finding, role: Role, o: map<Quantity, real>, n: map<Quantity, real>, q: Quantity, pointer: Pointer) {
    var a, b := BoundFor(o, q), BoundFor(n, q);
    Tells(f, role, pointer, MinRule(q), Keyword, MinLoses(a, b), MinLoses(b, a))
  }

  lemma MaxFinding(role: Role, o: map<Quantity, real>, n: map<Quantity, real>, q: Quantity, pointer: Pointer, f: Finding)
    ensures f in Graded(role, MaxChange(o, n, q, pointer)) <==> TellsMax(f, role, o, n, q, pointer)
  {
    hide MaxLoses;
    MaxLosesIff(BoundFor(o, q), BoundFor(n, q));
    MaxLosesIff(BoundFor(n, q), BoundFor(o, q));
    var cs := MaxChange(o, n, q, pointer);
    if cs != [] {
      OneFinding(role, cs[0], f);
    }
  }

  lemma MinFinding(role: Role, o: map<Quantity, real>, n: map<Quantity, real>, q: Quantity, pointer: Pointer, f: Finding)
    ensures f in Graded(role, MinChange(o, n, q, pointer)) <==> TellsMin(f, role, o, n, q, pointer)
  {
    hide MinLoses;
    MinLosesIff(BoundFor(o, q), BoundFor(n, q));
    MinLosesIff(BoundFor(n, q), BoundFor(o, q));
    var cs := MinChange(o, n, q, pointer);
    if cs != [] {
      OneFinding(role, cs[0], f);
    }
  }

  lemma {:induction false} MaxFindingsOf(
      role: Role, o: map<Quantity, real>, n: map<Quantity, real>, qs: seq<Quantity>, pointer: Pointer, f: Finding)
    ensures f in Graded(role, MaxChanges(o, n, qs, pointer)) <==> exists q :: q in qs && TellsMax(f, role, o, n, q, pointer)
  {
    hide MaxChange, TellsMax, Graded;
    NoneGraded(role, f);
    if qs != [] {
      var rest, q := qs[..|qs| - 1], qs[|qs| - 1];
      MaxFindingsOf(role, o, n, rest, pointer, f);
      MaxFinding(role, o, n, q, pointer, f);
      GradedAdds(role, MaxChanges(o, n, rest, pointer), MaxChange(o, n, q, pointer));
      assert qs == rest + [q];
    }
  }

  lemma {:induction false} MinFindingsOf(
      role: Role, o: map<Quantity, real>, n: map<Quantity, real>, qs: seq<Quantity>, pointer: Pointer, f: Finding)
    ensures f in Graded(role, MinChanges(o, n, qs, pointer)) <==> exists q :: q in qs && TellsMin(f, role, o, n, q, pointer)
  {
    hide MinChange, TellsMin, Graded;
    NoneGraded(role, f);
    if qs != [] {
      var rest, q := qs[..|qs| - 1], qs[|qs| - 1];
      MinFindingsOf(role, o, n, rest, pointer, f);
      MinFinding(role, o, n, q, pointer, f);
      GradedAdds(role, MinChanges(o, n, rest, pointer), MinChange(o, n, q, pointer));
      assert qs == rest + [q];
    }
  }

  /**
   `maxLength`, `maximum`, `maxItems` and `maxProperties`: a finding for a quantity tells that
   some measure met the older bound and not the newer one, or the other way round.
   */
  lemma MaxFindings(role: Role, o: map<Quantity, real>, n: map<Quantity, real>, pointer: Pointer, f: Finding)
    ensures f in Graded(role, MaxChanges(o, n, QUANTITIES, pointer)) <==> exists q :: TellsMax(f, role, o, n, q, pointer)
  {
    hide MaxChanges, TellsMax;
    MaxFindingsOf(role, o, n, QUANTITIES, pointer, f);
    if q :| TellsMax(f, role, o, n, q, pointer) {
      EveryQuantityListed(q);
    }
  }

  /** The same of the lower bounds. */
  lemma MinFindings(role: Role, o: map<Quantity, real>, n: map<Quantity, real>, pointer: Pointer, f: Finding)
    ensures f in Graded(role, MinChanges(o, n, QUANTITIES, pointer)) <==> exists q :: TellsMin(f, role, o, n, q, pointer)
  {
    hide MinChanges, TellsMin;
    MinFindingsOf(role, o, n, QUANTITIES, pointer, f);
    if q :| TellsMin(f, role, o, n, q, pointer) {
      EveryQuantityListed(q);
    }
  }

  // ----- types and enums

  predicate Lists(s: Option<set<Text>>, t: Text) {
    s.Some? && t in s.value
  }

  predicate Allows(s: Option<set<Text>>, t: Text) {
    s.None? || t in s.value
  }

  /** Some type, or some literal, is allowed by a and not by b. */
  ghost predicate SetLoses(a: Option<set<Text>>, b: Option<set<Text>>) {
    exists t :: Allows(a, t) && !Allows(b, t)
  }

  /** What a lists and b does not. */
  ghost predicate OnlyListed(names: set<Text>, a: Option<set<Text>>, b: Option<set<Text>>) {
    forall t :: t in names <==> Lists(a, t) && !Lists(b, t)
  }

  /** No finite set lists every text. */
  lemma Unlisted(s: set<Text>) returns (t: Text)
    ensures t !in s
  {
    var longest := LongestIn(s);
    t := Zeroes(longest + 1);
  }

  function Zeroes(n: nat): (t: Text)
    ensures |t| == n
  {
    seq(n, _ => 0)
  }

  lemma LongestIn(s: set<Text>) returns (n: nat)
    ensures forall t :: t in s ==> |t| <= n
  {
    n := 0;
    if s != {} {
      var t :| t in s;
      n := LongestIn(s - {t});
      n := if |t| > n then |t| else n;
      forall u | u in s ensures |u| <= n {
        assert u != t ==> u in s - {t};
      }
    }
  }

  lemma SetLosesIff(a: Option<set<Text>>, b: Option<set<Text>>)
    ensures SetLoses(a, b) <==> b.Some? && (a.None? || exists t :: t in a.value && t !in b.value)
  {
    if b.Some? && a.None? {
      var t := Unlisted(b.value);
      assert Allows(a, t) && !Allows(b, t);
    } else if b.Some? && exists t :: t in a.value && t !in b.value {
      var t :| t in a.value && t !in b.value;
      assert Allows(a, t) && !Allows(b, t);
    }
  }

  lemma SetFinding(role: Role, pointer: Pointer, rule: Rule, effect: Effect, whole: bool, names: set<Text>, f: Finding)
    requires effect.Narrowed? || effect.Widened?
    ensures f in Graded(role, SetChange(pointer, rule, effect, whole, names)) <==>
              (whole || names != {})
              && Tells(f, role, pointer, rule, if whole then WholeConstraint else Names(names), effect.Narrowed?, effect.Widened?)
  {
    var cs := SetChange(pointer, rule, effect, whole, names);
    if cs != [] {
      OneFinding(role, cs[0], f);
    }
  }

  /** The findings for a set of names: the whole constraint, or the names only one side lists. */
  ghost predicate TellsSet(f: Finding, role: Role, pointer: Pointer, rule: Rule, wholeLost: bool, wholeGained: bool,
                           o: Option<set<Text>>, n: Option<set<Text>>)
  {
    || Tells(f, role, pointer, rule, WholeConstraint, wholeLost, wholeGained)
    || (&& f.subject.Names? && f.subject.names != {}
        && Tells(f, role, pointer, rule, f.subject,
                 !wholeLost && OnlyListed(f.subject.names, o, n), !wholeGained && OnlyListed(f.subject.names, n, o)))
  }

  lemma OnlyListedIsDifference(names: set<Text>, a: Option<set<Text>>, b: Option<set<Text>>)
    ensures OnlyListed(names, a, b) <==> names == Difference(a, b)
  {
  }

  lemma SetFindings(role: Role, pointer: Pointer, rule: Rule, wholeLost: bool, wholeGained: bool,
                    o: Option<set<Text>>, n: Option<set<Text>>, f: Finding)
    ensures f in Graded(role, SetChange(pointer, rule, Narrowed, wholeLost, Difference(o, n))
                              + SetChange(pointer, rule, Widened, wholeGained, Difference(n, o))) <==>
              TellsSet(f, role, pointer, rule, wholeLost, wholeGained, o, n)
  {
    hide Graded, Difference, OnlyListed;
    SetFinding(role, pointer, rule, Narrowed, wholeLost, Difference(o, n), f);
    SetFinding(role, pointer, rule, Widened, wholeGained, Difference(n, o), f);
    GradedAdds(role, SetChange(pointer, rule, Narrowed, wholeLost, Difference(o, n)),
               SetChange(pointer, rule, Widened, wholeGained, Difference(n, o)));
    hide SetChange;
    if f.subject.Names? {
      OnlyListedIsDifference(f.subject.names, o, n);
      OnlyListedIsDifference(f.subject.names, n, o);
    }
  }

  /** `type`: introduced, dropped, or the types only one side lists. */
  lemma TypeFindings(role: Role, o: Option<set<Text>>, n: Option<set<Text>>, pointer: Pointer, f: Finding)
    ensures f in Graded(role, TypeChanges(o, n, pointer)) <==>
              TellsSet(f, role, pointer, TypeRule, o.None? && n.Some?, o.Some? && n.None?, o, n)
  {
    hide Graded, SetChange;
    SetFindings(role, pointer, TypeRule, o.None? && n.Some?, o.Some? && n.None?, o, n, f);
    if o == n {
      NothingOnlyListed(role, pointer, TypeRule, o, f);
    }
  }

  lemma NothingOnlyListed(role: Role, pointer: Pointer, rule: Rule, s: Option<set<Text>>, f: Finding)
    ensures f !in Graded(role, []) && !TellsSet(f, role, pointer, rule, false, false, s, s)
  {
    if f.subject.Names? && OnlyListed(f.subject.names, s, s) {
      assert f.subject.names == {};
    }
  }

  /** `enum`: dropping it is told as a loss, introducing it as a gain. */
  lemma EnumFindings(role: Role, o: Option<set<Text>>, n: Option<set<Text>>, pointer: Pointer, f: Finding)
    ensures f in Graded(role, EnumChanges(o, n, pointer)) <==>
              TellsSet(f, role, pointer, EnumRule, o.Some? && n.None?, o.None? && n.Some?, o, n)
  {
    hide Graded, SetChange;
    SetFindings(role, pointer, EnumRule, o.Some? && n.None?, o.None? && n.Some?, o, n, f);
    if o == n {
      NothingOnlyListed(role, pointer, EnumRule, o, f);
    }
  }

  // ----- patterns

  /** A string, by the patterns it matches. */
  type Matched = Text -> bool

  ghost predicate PatternAllows(p: Option<Text>, matched: Matched) {
    p.None? || matched(p.value)
  }

  /** Some string meets a's pattern and not b's; nothing is known of what a pattern matches. */
  ghost predicate PatternLoses(a: Option<Text>, b: Option<Text>) {
    exists matched: Matched :: PatternAllows(a, matched) && !PatternAllows(b, matched)
  }

  lemma PatternLosesIff(a: Option<Text>, b: Option<Text>)
    ensures PatternLoses(a, b) <==> b.Some? && a != b
  {
    if b.Some? && a != b {
      var matched := t => t != b.value;
      assert PatternAllows(a, matched) && !PatternAllows(b, matched);
    }
  }

  ghost predicate TellsPattern(f: Finding, role: Role, o: Option<Text>, n: Option<Text>, pointer: Pointer) {
    Tells(f, role, pointer, PatternRule, Keyword, PatternLoses(o, n), PatternLoses(n, o) && !PatternLoses(o, n))
  }

  /** `pattern`: a loss wherever one is possible, and a gain only where nothing can be lost. */
  lemma PatternFindings(role: Role, o: Option<Text>, n: Option<Text>, pointer: Pointer, f: Finding)
    ensures f in Graded(role, PatternChanges(o, n, pointer)) <==> TellsPattern(f, role, o, n, pointer)
  {
    hide PatternLoses, Graded;
    PatternLosesIff(o, n);
    PatternLosesIff(n, o);
    NoneGraded(role, f);
    var cs := PatternChanges(o, n, pointer);
    if cs != [] {
      OneFinding(role, cs[0], f);
    }
  }

  // ----- required names

  predicate RequiredMet(required: set<Text>, present: set<Text>) {
    required <= present
  }

  /** An object that meets a's demands lacks this name that b demands. */
  ghost predicate RequiredLoses(a: set<Text>, b: set<Text>, name: Text) {
    exists present :: RequiredMet(a, present) && name in b && name !in present
  }

  lemma RequiredLosesIff(a: set<Text>, b: set<Text>, name: Text)
    ensures RequiredLoses(a, b, name) <==> name in b - a
  {
    if name in b - a {
      assert RequiredMet(a, a);
    }
  }

  ghost predicate TellsRequired(f: Finding, role: Role, o: set<Text>, n: set<Text>, name: Text, pointer: Pointer) {
    Tells(f, role, pointer, RequiredRule, Names({name}), RequiredLoses(o, n, name), RequiredLoses(n, o, name))
  }

  lemma NameFinding(role: Role, names: seq<Text>, effect: Effect, pointer: Pointer, f: Finding)
    ensures f in Graded(role, NameChanges(names, RequiredRule, effect, pointer)) <==>
            exists name :: name in names && f == Grade(role, Change(pointer, RequiredRule, effect, Names({name})))
  {
    var cs := NameChanges(names, RequiredRule, effect, pointer);
    FindingOf(role, cs, f);
    if c :| c in cs && f == Grade(role, c) {
      var i :| 0 <= i < |cs| && cs[i] == c;
      assert names[i] in names;
    }
    if name :| name in names && f == Grade(role, Change(pointer, RequiredRule, effect, Names({name}))) {
      var i :| 0 <= i < |names| && names[i] == name;
      assert cs[i] in cs;
    }
  }

  /** `required`: a finding for each name demanded by one side only. */
  lemma RequiredFindings(role: Role, o: set<Text>, n: set<Text>, pointer: Pointer, f: Finding)
    ensures f in Graded(role, RequiredChanges(o, n, pointer)) <==> exists name :: TellsRequired(f, role, o, n, name, pointer)
  {
    hide Graded, NameChanges, SortedTexts, RequiredLoses;
    var added, dropped := SortedTexts(n - o), SortedTexts(o - n);
    GradedAdds(role, NameChanges(added, RequiredRule, Narrowed, pointer), NameChanges(dropped, RequiredRule, Widened, pointer));
    NameFinding(role, added, Narrowed, pointer, f);
    NameFinding(role, dropped, Widened, pointer, f);
    if name :| name in added && f == Grade(role, Change(pointer, RequiredRule, Narrowed, Names({name}))) {
      RequiredLosesIff(o, n, name);
      assert TellsRequired(f, role, o, n, name, pointer);
    }
    if name :| name in dropped && f == Grade(role, Change(pointer, RequiredRule, Widened, Names({name}))) {
      RequiredLosesIff(n, o, name);
      assert TellsRequired(f, role, o, n, name, pointer);
    }
    if name :| TellsRequired(f, role, o, n, name, pointer) {
      RequiredLosesIff(o, n, name);
      RequiredLosesIff(n, o, name);
      assert name in added || name in dropped;
    }
  }

  // ----- extra members

  /** What one side's subschemas accept, for one value. */
  type Verdicts = Schema -> bool

  ghost predicate ExtraAllowed(a: Additional, accepts: Verdicts) {
    match a
    case Open => true
    case Values(c) => accepts(c)
    case Closed => false
  }

  /** Some value may be an extra member on a's side and not on b's. */
  ghost predicate ExtrasLose(a: Additional, b: Additional) {
    exists x: Verdicts, y: Verdicts :: ExtraAllowed(a, x) && !ExtraAllowed(b, y)
  }

  lemma ExtrasLoseIff(a: Additional, b: Additional)
    ensures ExtrasLose(a, b) <==> !a.Closed? && !b.Open?
  {
    if !a.Closed? && !b.Open? {
      assert ExtraAllowed(a, _ => true) && !ExtraAllowed(b, _ => false);
    }
  }

  ghost predicate TellsRank(f: Finding, role: Role, o: Additional, n: Additional, pointer: Pointer) {
    && !(o.Values? && n.Values?)
    && Tells(f, role, pointer, AdditionalPropertiesRule, Keyword, ExtrasLose(o, n), ExtrasLose(n, o))
  }

  /** `additionalProperties`: two value schemas are compared as subschemas; all else is told as a loss or a gain. */
  lemma RankFindings(role: Role, o: Additional, n: Additional, pointer: Pointer, f: Finding)
    ensures f in Graded(role, RankChanges(o, n, pointer)) <==> TellsRank(f, role, o, n, pointer)
  {
    hide ExtrasLose, Graded;
    ExtrasLoseIff(o, n);
    ExtrasLoseIff(n, o);
    NoneGraded(role, f);
    var cs := RankChanges(o, n, pointer);
    if cs != [] {
      OneFinding(role, cs[0], f);
    }
  }

  // ----- a property or pattern of one side only

  /** A member that only this property or pattern, or else the extras, speak for. */
  ghost predicate MemberAllowed(s: Schema, slot: Slot, accepts: Verdicts)
    requires s.ObjectSchema?
  {
    if Has(s, slot) then accepts(At(s, slot)) else ExtraAllowed(s.additional, accepts)
  }

  ghost predicate MemberLoses(a: Schema, b: Schema, slot: Slot)
    requires a.ObjectSchema? && b.ObjectSchema?
  {
    exists x: Verdicts, y: Verdicts :: MemberAllowed(a, slot, x) && !MemberAllowed(b, slot, y)
  }

  lemma MemberLosesIff(a: Schema, b: Schema, slot: Slot)
    requires a.ObjectSchema? && b.ObjectSchema?
    ensures Has(a, slot) && !Has(b, slot) ==> (MemberLoses(a, b, slot) <==> !b.additional.Open?)
    ensures !Has(a, slot) && Has(b, slot) ==> (MemberLoses(a, b, slot) <==> !a.additional.Closed?)
  {
    if Has(a, slot) && !Has(b, slot) && !b.additional.Open? {
      assert MemberAllowed(a, slot, _ => true) && !MemberAllowed(b, slot, _ => false);
    }
    if !Has(a, slot) && Has(b, slot) && !a.additional.Closed? {
      assert MemberAllowed(a, slot, _ => true) && !MemberAllowed(b, slot, _ => false);
    }
  }

  /**
   A property or pattern only the old side has: a loss wherever one is possible; where none is,
   a dropped pattern counts as a gain and a dropped property does not.
   */
  ghost predicate TellsRemoved(f: Finding, role: Role, o: Schema, n: Schema, slot: Slot, pointer: Pointer)
    requires o.ObjectSchema? && n.ObjectSchema?
  {
    var lost := MemberLoses(o, n, slot);
    || Tells(f, role, pointer + [slot], Removed, Keyword, lost, !lost && slot.PatternProperty?)
    || (!lost && !slot.PatternProperty? && f == Finding(pointer + [slot], Removed, Info, role, Keyword))
  }

  /** One only the new side has: a gain wherever one is possible, and never a loss. */
  ghost predicate TellsAdded(f: Finding, role: Role, o: Schema, n: Schema, slot: Slot, pointer: Pointer)
    requires o.ObjectSchema? && n.ObjectSchema?
  {
    var gained := MemberLoses(n, o, slot);
    || Tells(f, role, pointer + [slot], Added, Keyword, false, gained)
    || (!gained && f == Finding(pointer + [slot], Added, Info, role, Keyword))
  }

  /** A property or pattern of one side only. */
  ghost predicate TellsOneSided(f: Finding, role: Role, o: Schema, n: Schema, slot: Slot, pointer: Pointer)
    requires o.ObjectSchema? && n.ObjectSchema?
  {
    && (slot.Property? || slot.PatternProperty?) && Has(o, slot) != Has(n, slot)
    && if Has(o, slot) then TellsRemoved(f, role, o, n, slot, pointer) else TellsAdded(f, role, o, n, slot, pointer)
  }

  lemma OneSidedFindings(role: Role, scope: Scope, o: Schema, n: Schema, slot: Slot, pointer: Pointer, depth: nat, f: Finding)
    requires o.ObjectSchema? && n.ObjectSchema? && depth <= MAX_COMPARE_DEPTH
    requires Has(o, slot) != Has(n, slot) && (slot.Property? || slot.PatternProperty?)
    ensures f in Graded(role, OneSlotChanges(scope, o, n, slot, pointer, depth)) <==>
              TellsOneSided(f, role, o, n, slot, pointer)
  {
    hide MemberLoses, Graded, Changes, Has;
    MemberLosesIff(o, n, slot);
    MemberLosesIff(n, o, slot);
    var cs := OneSlotChanges(scope, o, n, slot, pointer, depth);
    OneFinding(role, cs[0], f);
  }

  // ----- items

  ghost predicate ElementAllowed(items: Items, accepts: Verdicts) {
    items.One? ==> accepts(items.schema)
  }

  /** Some element is allowed on a's side and not on b's. */
  ghost predicate ElementsLose(a: Items, b: Items) {
    exists x: Verdicts, y: Verdicts :: ElementAllowed(a, x) && !ElementAllowed(b, y)
  }

  lemma ElementsLoseIff(a: Items, b: Items)
    ensures ElementsLose(a, b) <==> b.One?
  {
    if b.One? {
      assert ElementAllowed(a, _ => true) && !ElementAllowed(b, _ => false);
    }
  }

  /** One schema for all elements, or none. */
  predicate IsPlain(items: Items) {
    items.NoItems? || items.One?
  }

  ghost predicate TellsItems(f: Finding, role: Role, o: Items, n: Items, pointer: Pointer) {
    var at := pointer + [Element];
    if IsPlain(o) && IsPlain(n) then
      !(o.One? && n.One?) && Tells(f, role, at, ItemsRule, Keyword, ElementsLose(o, n), ElementsLose(n, o))
    else o != n && f == Finding(at, ItemsStructureChanged, Info, role, Keyword)
  }

  /** `items`: two element schemas are compared as subschemas; any other shape ends the comparison when it changes. */
  lemma ItemsFindings(role: Role, o: Items, n: Items, pointer: Pointer, f: Finding)
    ensures f in Graded(role, ItemsChanges(o, n, pointer)) <==> TellsItems(f, role, o, n, pointer)
  {
    hide ElementsLose, Graded;
    ElementsLoseIff(o, n);
    ElementsLoseIff(n, o);
    NoneGraded(role, f);
    var cs := ItemsChanges(o, n, pointer);
    if cs != [] {
      OneFinding(role, cs[0], f);
    }
  }

  // ----- combinators

  /** Some verdicts on the branches pass a's combinator and not b's. */
  ghost predicate BranchesLose(a: Combinator, b: Combinator, name: CombinatorName) {
    exists x: (Schema, Instance) -> bool, y: (Schema, Instance) -> bool, v: Instance ::
      AcceptsBranches(name, a, x, v) && !AcceptsBranches(name, b, y, v)
  }

  lemma BranchesLoseIff(a: Combinator, b: Combinator, name: CombinatorName)
    requires !a.Branches?
    ensures BranchesLose(a, b, name) <==> b.Branches? && !(name.AllOf? && b.branches == [])
  {
    if b.Branches? && !(name.AllOf? && b.branches == []) {
      var no := (c: Schema, v: Instance) => false;
      RejectedByAll(b, name, no);
      assert AcceptsBranches(name, a, no, Null);
    }
  }

  lemma RejectedByAll(b: Combinator, name: CombinatorName, no: (Schema, Instance) -> bool)
    requires b.Branches? && !(name.AllOf? && b.branches == []) && forall c, v :: !no(c, v)
    ensures !AcceptsBranches(name, b, no, Null)
  {
    if name.AllOf? {
      assert !no(b.branches[0], Null);
    }
  }

  /** A combinator that is no list of branches, or lists of different length: breaking, unjudged. */
  predicate Incomparable(o: Combinator, n: Combinator) {
    || o.Malformed? || n.Malformed?
    || (o.Branches? && n.Branches? && |o.branches| != |n.branches|)
  }

  ghost predicate TellsCombinator(f: Finding, role: Role, o: Combinator, n: Combinator, name: CombinatorName, pointer: Pointer) {
    var at := pointer + [Whole(name)];
    if Incomparable(o, n) then
      f == Finding(at, if o.Malformed? || n.Malformed? then ShapeChanged else BranchCountChanged, Breaking, role, Keyword)
    else if o.NoCombinator? && n.Branches? then
      || Tells(f, role, at, CombinatorAdded, Keyword, BranchesLose(o, n, name), false)
      || (!BranchesLose(o, n, name) && f == Finding(at, CombinatorAdded, Info, role, Keyword))
    else if o.Branches? && n.NoCombinator? then
      || Tells(f, role, at, CombinatorRemoved, Keyword, false, BranchesLose(n, o, name))
      || (!BranchesLose(n, o, name) && f == Finding(at, CombinatorRemoved, Info, role, Keyword))
    else false
  }

  /** `oneOf`, `anyOf`, `allOf`: an empty `allOf` demands nothing, so its coming and going is no loss and no gain. */
  lemma CombinatorFindings(role: Role, o: Combinator, n: Combinator, name: CombinatorName, pointer: Pointer, f: Finding)
    ensures f in Graded(role, CombinatorChanges(o, n, name, pointer)) <==> TellsCombinator(f, role, o, n, name, pointer)
  {
    hide BranchesLose, Graded;
    if o.NoCombinator? {
      BranchesLoseIff(o, n, name);
    }
    if n.NoCombinator? {
      BranchesLoseIff(n, o, name);
    }
    NoneGraded(role, f);
    var cs := CombinatorChanges(o, n, name, pointer);
    if cs != [] {
      OneFinding(role, cs[0], f);
    }
  }

  // ----- whole nodes

  /** A finding of a subschema both sides have. */
  ghost predicate FoundBelow(f: Finding, role: Role, scope: Scope, o: Schema, n: Schema, slot: Slot, pointer: Pointer, depth: nat)
    requires depth <= MAX_COMPARE_DEPTH
  {
    && Has(o, slot) && Has(n, slot)
    && f in Graded(role, Changes(scope, At(o, slot), At(n, slot), pointer + [slot], depth + 1))
  }

  lemma FoundInEither(role: Role, a: seq<Change>, b: seq<Change>, f: Finding)
    ensures f in Graded(role, a + b) <==> f in Graded(role, a) || f in Graded(role, b)
  {
    GradedAdds(role, a, b);
  }

  lemma {:induction false} SlotFindings(
      role: Role, scope: Scope, o: Schema, n: Schema, slots: seq<Slot>, pointer: Pointer, depth: nat, f: Finding)
    requires o.ObjectSchema? && n.ObjectSchema? && depth <= MAX_COMPARE_DEPTH
    ensures f in Graded(role, SlotChanges(scope, o, n, slots, pointer, depth)) <==>
            exists slot :: slot in slots && f in Graded(role, OneSlotChanges(scope, o, n, slot, pointer, depth))
    decreases |slots|
  {
    hide OneSlotChanges, SlotChanges, Graded;
    if slots == [] {
      NoSlotsNoChanges(scope, o, n, pointer, depth);
      NoneGraded(role, f);
    } else {
      var rest, slot := slots[..|slots| - 1], slots[|slots| - 1];
      SlotFindings(role, scope, o, n, rest, pointer, depth, f);
      LastSlot(scope, o, n, slots, pointer, depth);
      FoundInEither(role, SlotChanges(scope, o, n, rest, pointer, depth), OneSlotChanges(scope, o, n, slot, pointer, depth), f);
      assert slots == rest + [slot];
    }
  }

  lemma SharedSlotFindings(role: Role, scope: Scope, o: Schema, n: Schema, slot: Slot, pointer: Pointer, depth: nat, f: Finding)
    requires o.ObjectSchema? && n.ObjectSchema? && depth <= MAX_COMPARE_DEPTH
    ensures f in Graded(role, SlotChanges(scope, o, n, SharedSlot(o, n, slot), pointer, depth)) <==>
              FoundBelow(f, role, scope, o, n, slot, pointer, depth)
  {
    hide SlotChanges, Changes, Graded, Has;
    SharedSlotChanges(scope, o, n, slot, pointer, depth);
    NoneGraded(role, f);
  }

  /** A property or pattern: compared when both sides have it, one-sided otherwise. */
  ghost predicate FoundAtMember(f: Finding, role: Role, scope: Scope, o: Schema, n: Schema, slot: Slot, pointer: Pointer, depth: nat)
    requires o.ObjectSchema? && n.ObjectSchema? && depth <= MAX_COMPARE_DEPTH
  {
    FoundBelow(f, role, scope, o, n, slot, pointer, depth) || TellsOneSided(f, role, o, n, slot, pointer)
  }

  lemma MemberFindings(role: Role, scope: Scope, o: Schema, n: Schema, slot: Slot, pointer: Pointer, depth: nat, f: Finding)
    requires o.ObjectSchema? && n.ObjectSchema? && depth <= MAX_COMPARE_DEPTH
    requires (Has(o, slot) || Has(n, slot)) && (slot.Property? || slot.PatternProperty?)
    ensures f in Graded(role, OneSlotChanges(scope, o, n, slot, pointer, depth)) <==>
              FoundAtMember(f, role, scope, o, n, slot, pointer, depth)
  {
    hide Changes, Graded, Has, TellsRemoved, TellsAdded;
    if Has(o, slot) != Has(n, slot) {
      OneSidedFindings(role, scope, o, n, slot, pointer, depth, f);
    }
  }

  lemma FoundMemberExists(f: Finding, role: Role, scope: Scope, o: Schema, n: Schema, slot: Slot, pointer: Pointer, depth: nat)
    requires o.ObjectSchema? && n.ObjectSchema? && depth <= MAX_COMPARE_DEPTH
    requires FoundAtMember(f, role, scope, o, n, slot, pointer, depth)
    ensures Has(o, slot) || Has(n, slot)
  {
    hide Changes, Graded, TellsRemoved, TellsAdded;
  }

  lemma PropertyFindings(role: Role, scope: Scope, o: Schema, n: Schema, pointer: Pointer, depth: nat, f: Finding)
    requires o.ObjectSchema? && n.ObjectSchema? && depth <= MAX_COMPARE_DEPTH
    ensures f in Graded(role, SlotChanges(scope, o, n, PropertySlots(o, n), pointer, depth)) <==>
            exists slot: Slot :: slot.Property? && FoundAtMember(f, role, scope, o, n, slot, pointer, depth)
  {
    hide OneSlotChanges, SlotChanges, Graded, PropertySlots, FoundAtMember;
    SlotFindings(role, scope, o, n, PropertySlots(o, n), pointer, depth, f);
    if slot :| slot in PropertySlots(o, n) && f in Graded(role, OneSlotChanges(scope, o, n, slot, pointer, depth)) {
      PropertyOfOne(o, n, slot);
      MemberFindings(role, scope, o, n, slot, pointer, depth, f);
    }
    if slot: Slot :| slot.Property? && FoundAtMember(f, role, scope, o, n, slot, pointer, depth) {
      FoundMemberExists(f, role, scope, o, n, slot, pointer, depth);
      PropertyListed(o, n, slot.name);
      MemberFindings(role, scope, o, n, slot, pointer, depth, f);
    }
  }

  lemma PatternMemberFindings(role: Role, scope: Scope, o: Schema, n: Schema, pointer: Pointer, depth: nat, f: Finding)
    requires o.ObjectSchema? && n.ObjectSchema? && depth <= MAX_COMPARE_DEPTH
    ensures f in Graded(role, SlotChanges(scope, o, n, PatternSlots(o, n), pointer, depth)) <==>
            exists slot: Slot :: slot.PatternProperty? && FoundAtMember(f, role, scope, o, n, slot, pointer, depth)
  {
    hide OneSlotChanges, SlotChanges, Graded, PatternSlots, FoundAtMember;
    SlotFindings(role, scope, o, n, PatternSlots(o, n), pointer, depth, f);
    if slot :| slot in PatternSlots(o, n) && f in Graded(role, OneSlotChanges(scope, o, n, slot, pointer, depth)) {
      PatternOfOne(o, n, slot);
      MemberFindings(role, scope, o, n, slot, pointer, depth, f);
    }
    if slot: Slot :| slot.PatternProperty? && FoundAtMember(f, role, scope, o, n, slot, pointer, depth) {
      FoundMemberExists(f, role, scope, o, n, slot, pointer, depth);
      PatternListed(o, n, slot.regex);
      MemberFindings(role, scope, o, n, slot, pointer, depth, f);
    }
  }

  /** Two lists of branches of one length are compared branch by branch. */
  predicate Comparable(o: Combinator, n: Combinator) {
    o.Branches? && n.Branches? && |o.branches| == |n.branches|
  }

  ghost predicate FoundAtCombinator(
      f: Finding, role: Role, scope: Scope, o: Schema, n: Schema, name: CombinatorName, pointer: Pointer, depth: nat)
    requires o.ObjectSchema? && n.ObjectSchema? && depth <= MAX_COMPARE_DEPTH
  {
    var a, b := CombinatorOf(o, name), CombinatorOf(n, name);
    || TellsCombinator(f, role, a, b, name, pointer)
    || (Comparable(a, b) && exists i :: FoundBelow(f, role, scope, o, n, Branch(name, i), pointer, depth))
  }

  lemma CombinatorPartFindings(
      role: Role, scope: Scope, o: Schema, n: Schema, name: CombinatorName, pointer: Pointer, depth: nat, f: Finding)
    requires o.ObjectSchema? && n.ObjectSchema? && depth <= MAX_COMPARE_DEPTH
    ensures f in Graded(role, CombinatorPart(scope, o, n, name, pointer, depth)) <==>
              FoundAtCombinator(f, role, scope, o, n, name, pointer, depth)
  {
    hide SlotChanges, OneSlotChanges, CombinatorPart, CombinatorChanges, Graded, FoundBelow, BranchesLose;
    var a, b := CombinatorOf(o, name), CombinatorOf(n, name);
    CombinatorPartCases(scope, o, n, name, pointer, depth);
    CombinatorFindings(role, a, b, name, pointer, f);
    if Comparable(a, b) {
      BranchFindings(role, scope, o, n, name, |a.branches|, pointer, depth, f);
    }
  }

  lemma BranchFindings(
      role: Role, scope: Scope, o: Schema, n: Schema, name: CombinatorName, count: nat, pointer: Pointer, depth: nat, f: Finding)
    requires o.ObjectSchema? && n.ObjectSchema? && depth <= MAX_COMPARE_DEPTH
    requires CombinatorOf(o, name).Branches? && |CombinatorOf(o, name).branches| == count
    requires CombinatorOf(n, name).Branches? && |CombinatorOf(n, name).branches| == count
    ensures f in Graded(role, SlotChanges(scope, o, n, BranchSlots(name, count), pointer, depth)) <==>
            exists i :: FoundBelow(f, role, scope, o, n, Branch(name, i), pointer, depth)
  {
    hide SlotChanges, Graded, Changes;
    var slots := BranchSlots(name, count);
    SlotFindings(role, scope, o, n, slots, pointer, depth, f);
    if slot :| slot in slots && f in Graded(role, OneSlotChanges(scope, o, n, slot, pointer, depth)) {
      var i :| 0 <= i < count && slots[i] == slot;
      assert FoundBelow(f, role, scope, o, n, Branch(name, i), pointer, depth);
    }
    if i: nat :| FoundBelow(f, role, scope, o, n, Branch(name, i), pointer, depth) {
      assert slots[i] == Branch(name, i);
      assert f in Graded(role, OneSlotChanges(scope, o, n, slots[i], pointer, depth));
    }
  }

  /** A finding of the node's own keywords. */
  ghost predicate TellsKeyword(f: Finding, role: Role, o: Schema, n: Schema, pointer: Pointer)
    requires o.ObjectSchema? && n.ObjectSchema?
  {
    || TellsSet(f, role, pointer, TypeRule, o.types.None? && n.types.Some?, o.types.Some? && n.types.None?, o.types, n.types)
    || TellsSet(f, role, pointer, EnumRule, o.enum.Some? && n.enum.None?, o.enum.None? && n.enum.Some?, o.enum, n.enum)
    || TellsRank(f, role, o.additional, n.additional, pointer)
    || TellsPattern(f, role, o.pattern, n.pattern, pointer)
    || (exists q :: TellsMax(f, role, o.max, n.max, q, pointer))
    || (exists q :: TellsMin(f, role, o.min, n.min, q, pointer))
    || (exists name :: TellsRequired(f, role, o.required, n.required, name, pointer))
    || TellsItems(f, role, o.items, n.items, pointer)
  }

  /** A finding of the node itself, not of a subschema. */
  ghost predicate TellsOwn(f: Finding, role: Role, o: Schema, n: Schema, pointer: Pointer)
    requires o.ObjectSchema? && n.ObjectSchema?
  {
    || TellsKeyword(f, role, o, n, pointer)
    || (exists slot :: TellsOneSided(f, role, o, n, slot, pointer))
    || exists name :: TellsCombinator(f, role, CombinatorOf(o, name), CombinatorOf(n, name), name, pointer)
  }

  /** The comparator looks into the subschemas at this place. */
  predicate IsLookedInto(o: Schema, n: Schema, slot: Slot) {
    && IsCompared(slot) && Has(o, slot) && Has(n, slot)
    && (slot.Branch? ==> Comparable(CombinatorOf(o, slot.combinator), CombinatorOf(n, slot.combinator)))
  }

  /** What each part of a comparison reports. */
  ghost predicate FoundInPart(f: Finding, role: Role, scope: Scope, o: Schema, n: Schema, k: nat, pointer: Pointer, depth: nat)
    requires o.ObjectSchema? && n.ObjectSchema? && depth <= MAX_COMPARE_DEPTH
  {
    match k
    case 0 => TellsSet(f, role, pointer, TypeRule, o.types.None? && n.types.Some?, o.types.Some? && n.types.None?, o.types, n.types)
    case 1 => TellsSet(f, role, pointer, EnumRule, o.enum.Some? && n.enum.None?, o.enum.None? && n.enum.Some?, o.enum, n.enum)
    case 2 => TellsRank(f, role, o.additional, n.additional, pointer) || FoundBelow(f, role, scope, o, n, Extras, pointer, depth)
    case 3 => TellsPattern(f, role, o.pattern, n.pattern, pointer)
    case 4 => exists q :: TellsMax(f, role, o.max, n.max, q, pointer)
    case 5 => exists q :: TellsMin(f, role, o.min, n.min, q, pointer)
    case 6 => exists name :: TellsRequired(f, role, o.required, n.required, name, pointer)
    case 7 => exists slot: Slot :: slot.Property? && FoundAtMember(f, role, scope, o, n, slot, pointer, depth)
    case 8 => exists slot: Slot :: slot.PatternProperty? && FoundAtMember(f, role, scope, o, n, slot, pointer, depth)
    case 9 => TellsItems(f, role, o.items, n.items, pointer) || FoundBelow(f, role, scope, o, n, Element, pointer, depth)
    case 10 => FoundAtCombinator(f, role, scope, o, n, OneOf, pointer, depth)
    case 11 => FoundAtCombinator(f, role, scope, o, n, AnyOf, pointer, depth)
    case 12 => FoundAtCombinator(f, role, scope, o, n, AllOf, pointer, depth)
    case _ => false
  }

  lemma PartFindings(role: Role, scope: Scope, o: Schema, n: Schema, k: nat, pointer: Pointer, depth: nat, f: Finding)
    requires o.ObjectSchema? && n.ObjectSchema? && depth <= MAX_COMPARE_DEPTH
    ensures f in Graded(role, Part(scope, o, n, k, pointer, depth)) <==> FoundInPart(f, role, scope, o, n, k, pointer, depth)
  {
    hide SlotChanges, CombinatorPart, TypeChanges, EnumChanges, RankChanges, PatternChanges, MaxChanges, MinChanges,
      RequiredChanges, ItemsChanges, Graded, PropertySlots, PatternSlots, FoundBelow, FoundAtMember, FoundAtCombinator,
      TellsMax, TellsMin, TellsRequired, TellsRank, TellsItems, TellsPattern, TellsSet, SharedSlot;
    match k {
      case 0 => TypeFindings(role, o.types, n.types, pointer, f);
      case 1 => EnumFindings(role, o.enum, n.enum, pointer, f);
      case 2 =>
        RankFindings(role, o.additional, n.additional, pointer, f);
        SharedSlotFindings(role, scope, o, n, Extras, pointer, depth, f);
        FoundInEither(role, RankChanges(o.additional, n.additional, pointer),
                      SlotChanges(scope, o, n, SharedSlot(o, n, Extras), pointer, depth), f);
      case 3 => PatternFindings(role, o.pattern, n.pattern, pointer, f);
      case 4 => MaxFindings(role, o.max, n.max, pointer, f);
      case 5 => MinFindings(role, o.min, n.min, pointer, f);
      case 6 => RequiredFindings(role, o.required, n.required, pointer, f);
      case 7 => PropertyFindings(role, scope, o, n, pointer, depth, f);
      case 8 => PatternMemberFindings(role, scope, o, n, pointer, depth, f);
      case 9 =>
        ItemsFindings(role, o.items, n.items, pointer, f);
        SharedSlotFindings(role, scope, o, n, Element, pointer, depth, f);
        FoundInEither(role, ItemsChanges(o.items, n.items, pointer),
                      SlotChanges(scope, o, n, SharedSlot(o, n, Element), pointer, depth), f);
      case 10 => CombinatorPartFindings(role, scope, o, n, OneOf, pointer, depth, f);
      case 11 => CombinatorPartFindings(role, scope, o, n, AnyOf, pointer, depth, f);
      case 12 => CombinatorPartFindings(role, scope, o, n, AllOf, pointer, depth, f);
      case _ => NoneGraded(role, f);
    }
  }

  lemma {:induction false} FirstPartsFindings(
      role: Role, scope: Scope, o: Schema, n: Schema, parts: nat, pointer: Pointer, depth: nat, f: Finding)
    requires o.ObjectSchema? && n.ObjectSchema? && depth <= MAX_COMPARE_DEPTH
    ensures f in Graded(role, FirstParts(scope, o, n, parts, pointer, depth)) <==>
            exists k: nat :: k < parts && FoundInPart(f, role, scope, o, n, k, pointer, depth)
    decreases parts
  {
    hide Part, FoundInPart, Graded;
    if parts == 0 {
      NoneGraded(role, f);
    } else {
      FirstPartsFindings(role, scope, o, n, parts - 1, pointer, depth, f);
      PartFindings(role, scope, o, n, parts - 1, pointer, depth, f);
      FoundInEither(role, FirstParts(scope, o, n, parts - 1, pointer, depth), Part(scope, o, n, parts - 1, pointer, depth), f);
    }
  }

  /** A finding of some subschema the comparator looks into. */
  ghost predicate FoundInside(f: Finding, role: Role, scope: Scope, o: Schema, n: Schema, pointer: Pointer, depth: nat)
    requires depth <= MAX_COMPARE_DEPTH
  {
    exists slot :: IsLookedInto(o, n, slot) && FoundBelow(f, role, scope, o, n, slot, pointer, depth)
  }

  lemma PartIsOwnOrInside(f: Finding, role: Role, scope: Scope, o: Schema, n: Schema, k: nat, pointer: Pointer, depth: nat)
    requires o.ObjectSchema? && n.ObjectSchema? && depth <= MAX_COMPARE_DEPTH
    requires FoundInPart(f, role, scope, o, n, k, pointer, depth)
    ensures TellsOwn(f, role, o, n, pointer) || FoundInside(f, role, scope, o, n, pointer, depth)
  {
    hide FoundBelow, TellsOneSided, TellsCombinator, TellsMax, TellsMin, TellsRequired, TellsRank, TellsItems, TellsPattern, TellsSet;
    forall slot ensures FoundBelow(f, role, scope, o, n, slot, pointer, depth) ==> Has(o, slot) && Has(n, slot) {
      BelowIsShared(f, role, scope, o, n, slot, pointer, depth);
    }
  }

  lemma BelowIsShared(f: Finding, role: Role, scope: Scope, o: Schema, n: Schema, slot: Slot, pointer: Pointer, depth: nat)
    requires depth <= MAX_COMPARE_DEPTH
    ensures FoundBelow(f, role, scope, o, n, slot, pointer, depth) ==> Has(o, slot) && Has(n, slot)
  {
    hide Changes, Graded, Has;
  }

  lemma OwnIsInPart(f: Finding, role: Role, scope: Scope, o: Schema, n: Schema, pointer: Pointer, depth: nat) returns (k: nat)
    requires o.ObjectSchema? && n.ObjectSchema? && depth <= MAX_COMPARE_DEPTH && TellsOwn(f, role, o, n, pointer)
    ensures k < PARTS && FoundInPart(f, role, scope, o, n, k, pointer, depth)
  {
    hide FoundBelow, TellsOneSided, TellsCombinator, TellsMax, TellsMin, TellsRequired, TellsRank, TellsItems, TellsPattern, TellsSet;
    if TellsKeyword(f, role, o, n, pointer) {
      k := if FoundInPart(f, role, scope, o, n, 0, pointer, depth) then 0
           else if FoundInPart(f, role, scope, o, n, 1, pointer, depth) then 1
           else if FoundInPart(f, role, scope, o, n, 2, pointer, depth) then 2
           else if FoundInPart(f, role, scope, o, n, 3, pointer, depth) then 3
           else if FoundInPart(f, role, scope, o, n, 4, pointer, depth) then 4
           else if FoundInPart(f, role, scope, o, n, 5, pointer, depth) then 5
           else if FoundInPart(f, role, scope, o, n, 6, pointer, depth) then 6
           else 9;
    } else if slot :| TellsOneSided(f, role, o, n, slot, pointer) {
      OneSidedIsMember(f, role, scope, o, n, slot, pointer, depth);
      k := if slot.Property? then 7 else 8;
    } else {
      var name :| TellsCombinator(f, role, CombinatorOf(o, name), CombinatorOf(n, name), name, pointer);
      k := match name case OneOf => 10 case AnyOf => 11 case AllOf => 12;
    }
  }

  lemma OneSidedIsMember(f: Finding, role: Role, scope: Scope, o: Schema, n: Schema, slot: Slot, pointer: Pointer, depth: nat)
    requires o.ObjectSchema? && n.ObjectSchema? && depth <= MAX_COMPARE_DEPTH && TellsOneSided(f, role, o, n, slot, pointer)
    ensures (slot.Property? || slot.PatternProperty?) && FoundAtMember(f, role, scope, o, n, slot, pointer, depth)
  {
    hide FoundBelow, TellsRemoved, TellsAdded;
  }

  lemma InsideIsInPart(f: Finding, role: Role, scope: Scope, o: Schema, n: Schema, pointer: Pointer, depth: nat) returns (k: nat)
    requires o.ObjectSchema? && n.ObjectSchema? && depth <= MAX_COMPARE_DEPTH
    requires FoundInside(f, role, scope, o, n, pointer, depth)
    ensures k < PARTS && FoundInPart(f, role, scope, o, n, k, pointer, depth)
  {
    hide FoundBelow, TellsOneSided, TellsCombinator, TellsRank, TellsItems, Comparable;
    var slot :| IsLookedInto(o, n, slot) && FoundBelow(f, role, scope, o, n, slot, pointer, depth);
    match slot
    case Extras => k := 2;
    case Property(_) =>
      k := 7;
      assert FoundAtMember(f, role, scope, o, n, slot, pointer, depth);
    case PatternProperty(_) =>
      k := 8;
      assert FoundAtMember(f, role, scope, o, n, slot, pointer, depth);
    case Element => k := 9;
    case Branch(c, i) => k := match c case OneOf => 10 case AnyOf => 11 case AllOf => 12;
  }

  /** A comparison of two schema objects reports what its own keywords tell and what it finds inside, and nothing else. */
  lemma NodeFindings(role: Role, scope: Scope, o: Schema, n: Schema, pointer: Pointer, depth: nat, f: Finding)
    requires o.ObjectSchema? && n.ObjectSchema? && depth <= MAX_COMPARE_DEPTH
    ensures f in Graded(role, FirstParts(scope, o, n, PARTS, pointer, depth)) <==>
            TellsOwn(f, role, o, n, pointer) || FoundInside(f, role, scope, o, n, pointer, depth)
  {
    hide FirstParts, FoundInPart, TellsOwn, FoundInside, Graded;
    FirstPartsFindings(role, scope, o, n, PARTS, pointer, depth, f);
    if k: nat :| k < PARTS && FoundInPart(f, role, scope, o, n, k, pointer, depth) {
      PartIsOwnOrInside(f, role, scope, o, n, k, pointer, depth);
    }
    if TellsOwn(f, role, o, n, pointer) {
      var k := OwnIsInPart(f, role, scope, o, n, pointer, depth);
    }
    if FoundInside(f, role, scope, o, n, pointer, depth) {
      var k := InsideIsInPart(f, role, scope, o, n, pointer, depth);
    }
  }

  // ----- whole comparisons

  /** A `$ref` of either side leads nowhere. */
  ghost predicate Dangles(scope: Scope, oldRaw: Schema, newRaw: Schema) {
    || DerefFrom(scope.oldReg, oldRaw, scope.oldBase, scope.oldVisited, 0).Unresolved?
    || DerefFrom(scope.newReg, newRaw, scope.newBase, scope.newVisited, 0).Unresolved?
  }

  /**
   The one finding a comparison that goes no further may end with: too deep, a dangling ref, a
   fragment that is no schema object and changed, or a cycle of refs.
   */
  ghost predicate TellsEnding(f: Finding, role: Role, scope: Scope, oldRaw: Schema, newRaw: Schema, pointer: Pointer, depth: nat) {
    if depth > 60 then f == Finding(pointer, DepthLimit, Info, role, Keyword)
    else if Dangles(scope, oldRaw, newRaw) then f == Finding(pointer, UnresolvedRef, Breaking, role, Keyword)
    else
      var older := DerefFrom(scope.oldReg, oldRaw, scope.oldBase, scope.oldVisited, 0);
      var newer := DerefFrom(scope.newReg, newRaw, scope.newBase, scope.newVisited, 0);
      if IsText(older.node) || IsText(newer.node) then
        older.node != newer.node && f == Finding(pointer, LeafChanged, Info, role, Keyword)
      else (older.cyclic || newer.cyclic) && f == Finding(pointer, CyclicRef, Info, role, Keyword)
  }

  /** The comparison reports f at this pointer: of the node itself, or of a subschema it looks into. */
  ghost predicate Told(f: Finding, role: Role, scope: Scope, oldRaw: Schema, newRaw: Schema, pointer: Pointer, depth: nat)
    requires depth <= MAX_COMPARE_DEPTH + 1
    decreases MAX_COMPARE_DEPTH + 1 - depth
  {
    var r := ResolvePair(scope, oldRaw, newRaw, [], depth);
    if r.Ended? then TellsEnding(f, role, scope, oldRaw, newRaw, pointer, depth)
    else
      || TellsOwn(f, role, r.older, r.newer, pointer)
      || exists slot :: IsLookedInto(r.older, r.newer, slot)
                        && Told(f, role, r.scope, At(r.older, slot), At(r.newer, slot), pointer + [slot], depth + 1)
  }

  lemma EndingFindings(role: Role, scope: Scope, oldRaw: Schema, newRaw: Schema, pointer: Pointer, depth: nat, f: Finding)
    requires depth <= MAX_COMPARE_DEPTH + 1
    ensures var r, s := ResolvePair(scope, oldRaw, newRaw, [], depth), ResolvePair(scope, oldRaw, newRaw, pointer, depth);
            && (r.Pair? ==> r == s)
            && (r.Ended? ==> s.Ended? && (f in Graded(role, s.changes) <==>
                                            TellsEnding(f, role, scope, oldRaw, newRaw, pointer, depth)))
  {
    hide ResolvePair, Graded, TellsEnding;
    PointerDoesNotMatter(scope, oldRaw, newRaw, pointer, depth);
    var s := ResolvePair(scope, oldRaw, newRaw, pointer, depth);
    if s.Ended? {
      EndingChange(role, scope, oldRaw, newRaw, pointer, depth, f, s.changes);
      NoneGraded(role, f);
      if s.changes != [] {
        assert s.changes == [s.changes[0]];
        OneFinding(role, s.changes[0], f);
      }
    }
  }

  lemma PointerDoesNotMatter(scope: Scope, oldRaw: Schema, newRaw: Schema, pointer: Pointer, depth: nat)
    ensures var r, s := ResolvePair(scope, oldRaw, newRaw, [], depth), ResolvePair(scope, oldRaw, newRaw, pointer, depth);
            (r.Pair? <==> s.Pair?) && (r.Pair? ==> r == s)
  {
    hide DerefFrom;
  }

  lemma EndingChange(role: Role, scope: Scope, oldRaw: Schema, newRaw: Schema, pointer: Pointer, depth: nat, f: Finding,
                     changes: seq<Change>)
    requires ResolvePair(scope, oldRaw, newRaw, pointer, depth) == Ended(changes)
    ensures |changes| <= 1
    ensures TellsEnding(f, role, scope, oldRaw, newRaw, pointer, depth) <==> changes != [] && f == Grade(role, changes[0])
  {
    hide DerefFrom;
  }

  /** The findings of a comparison are exactly those its nodes tell, each where it belongs. */
  lemma {:induction false} FindingsAreTold(role: Role, scope: Scope, oldRaw: Schema, newRaw: Schema, pointer: Pointer, depth: nat, f: Finding)
    requires depth <= MAX_COMPARE_DEPTH + 1
    ensures f in Graded(role, Changes(scope, oldRaw, newRaw, pointer, depth)) <==>
              Told(f, role, scope, oldRaw, newRaw, pointer, depth)
    decreases MAX_COMPARE_DEPTH + 1 - depth
  {
    hide Graded, FirstParts, ResolvePair, TellsOwn, TellsEnding, Dangles, IsLookedInto;
    EndingFindings(role, scope, oldRaw, newRaw, pointer, depth, f);
    var r := ResolvePair(scope, oldRaw, newRaw, [], depth);
    if r.Pair? {
      NodeFindings(role, r.scope, r.older, r.newer, pointer, depth, f);
      forall slot | IsLookedInto(r.older, r.newer, slot)
        ensures Has(r.older, slot) && Has(r.newer, slot)
        ensures FoundBelow(f, role, r.scope, r.older, r.newer, slot, pointer, depth) <==>
                Told(f, role, r.scope, At(r.older, slot), At(r.newer, slot), pointer + [slot], depth + 1)
      {
        LookedIntoIsShared(r.older, r.newer, slot);
        FindingsAreTold(role, r.scope, At(r.older, slot), At(r.newer, slot), pointer + [slot], depth + 1, f);
      }
    }
  }

  lemma LookedIntoIsShared(o: Schema, n: Schema, slot: Slot)
    requires IsLookedInto(o, n, slot)
    ensures Has(o, slot) && Has(n, slot)
  {
  }
}
