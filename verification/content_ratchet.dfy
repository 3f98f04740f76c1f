/**
 The legacy-content ratchet of `scripts/content_class_manifest.py`: one commit is judged against
 the copies its predecessor left, and a run of accepted commits can only shed legacy content.
 */
module ContentRatchet {
  import opened Outcomes
  import opened Sorting

  const LEGACY: Text := Ascii("legacy_content")
  const REMOVED: Text := Ascii("removed")

  type Location = Text
  type Classes = map<Location, Text>

  datatype Disposition = Disposition(location: Location, to: Option<Text>, reference: Option<Text>, rest: Text)

  datatype Dispositions = Dispositions(register: set<Location>, entries: seq<Disposition>)

  datatype Problem =
    | StaleManifest
    | NewLegacy(loc: Location)
    | RegisterLost(few: seq<Location>)
    | DispositionEdited(loc: Location)
    | LeftSilently(loc: Location, now: Text)
    | WrongClass(loc: Location, said: Option<Text>, now: Text)
    | BadReference(loc: Location, why: Text)

  /** The last entry for a location wins. */
  function ByLocation(entries: seq<Disposition>): map<Location, Disposition> {
    if entries == [] then map[]
    else
      var d := entries[|entries| - 1];
      ByLocation(entries[..|entries| - 1])[d.location := d]
  }

  function Get<V>(m: map<Location, V>, k: Location): Option<V> {
    if k in m then Some(m[k]) else None
  }

  /** The class a location carries now; an absent or empty one counts as removed. */
  function ClassNow(live: Classes, loc: Location): Text {
    if loc in live && live[loc] != [] then live[loc] else REMOVED
  }

  predicate IsLegacy(classes: Classes, loc: Location) {
    loc in classes && classes[loc] == LEGACY
  }

  function AnchoredEntries(d: Option<Dispositions>): seq<Disposition> {
    if d.Some? then d.value.entries else []
  }

  function AnchoredRegister(d: Option<Dispositions>): set<Location> {
    if d.Some? then d.value.register else {}
  }

  /** Everything a verdict looks at; the reference check reads files, so it is a parameter. */
  datatype Inputs = Inputs(
    live: Classes,
    manifest: Classes,
    dispositions: Dispositions,
    anchor: Option<Classes>,
    anchorDispositions: Option<Dispositions>,
    referenceProblem: Option<Text> -> Option<Text>)

  /** Exactly these problems deserve a report; without an anchor only the first. */
  ghost predicate Deserved(x: Inputs, p: Problem) {
    var current, anchored := ByLocation(x.dispositions.entries), ByLocation(AnchoredEntries(x.anchorDispositions));
    if p.StaleManifest? then x.manifest != x.live
    else
      x.anchor.Some? &&
      match p
      case NewLegacy(loc) => IsLegacy(x.live, loc) && !IsLegacy(x.anchor.value, loc)
      case RegisterLost(few) =>
        var lost := AnchoredRegister(x.anchorDispositions) - x.dispositions.register;
        lost != {} && few == FirstThree(SortedTexts(lost))
      case DispositionEdited(loc) => loc in anchored && Get(current, loc) != Some(anchored[loc])
      case LeftSilently(loc, now) => Left(x, loc) && now == ClassNow(x.live, loc) && loc !in current
      case WrongClass(loc, said, now) =>
        Left(x, loc) && now == ClassNow(x.live, loc) && loc in current && said == current[loc].to && said != Some(now)
      case BadReference(loc, why) =>
        Left(x, loc) && loc in current && x.referenceProblem(current[loc].reference) == Some(why)
      case StaleManifest => false
  }

  predicate Left(x: Inputs, loc: Location)
    requires x.anchor.Some?
  {
    IsLegacy(x.anchor.value, loc) && !IsLegacy(x.live, loc)
  }

  function FirstThree(s: seq<Location>): seq<Location> {
    if |s| <= 3 then s else s[..3]
  }

  ghost predicate Accepted(x: Inputs) {
    forall p :: !Deserved(x, p)
  }

  /** The class a departure must name: the one the location carries now, or `removed`. */
  ghost predicate NamesClass(to: Option<Text>, live: Classes, loc: Location) {
    if loc in live && live[loc] != [] then to == Some(live[loc]) else to == Some(Ascii("removed"))
  }

  /** The departure is recorded with the class the location carries now and a reference in order. */
  ghost predicate DepartureInOrder(x: Inputs, loc: Location) {
    var current := ByLocation(x.dispositions.entries);
    loc in current && NamesClass(current[loc].to, x.live, loc) && x.referenceProblem(current[loc].reference) == None
  }

  /** What a commit must meet, anchor and all. */
  ghost predicate InOrder(x: Inputs, anchor: Classes) {
    var legacy := Ascii("legacy_content");
    && x.manifest == x.live
    && (forall loc :: loc in x.live && x.live[loc] == legacy ==> loc in anchor && anchor[loc] == legacy)
    && AnchoredRegister(x.anchorDispositions) <= x.dispositions.register
    && (var current, anchored := ByLocation(x.dispositions.entries), ByLocation(AnchoredEntries(x.anchorDispositions));
        forall loc :: loc in anchored ==> loc in current && current[loc] == anchored[loc])
    && (forall loc :: loc in anchor && anchor[loc] == legacy && !(loc in x.live && x.live[loc] == legacy) ==>
          DepartureInOrder(x, loc))
  }

  /** Without an anchor only a stale manifest is a problem; with one, nothing but what breaks the order. */
  lemma AcceptedIffInOrder(x: Inputs)
    ensures x.anchor.None? ==> (Accepted(x) <==> x.manifest == x.live)
    ensures x.anchor.Some? ==> (Accepted(x) <==> InOrder(x, x.anchor.value))
  {
    hide ByLocation, Accepted, InOrder;
    if x.anchor.None? {
      OnlyStale(x);
    } else {
      if Accepted(x) {
        AcceptedIsInOrder(x);
      }
      if InOrder(x, x.anchor.value) {
        InOrderIsAccepted(x);
      }
    }
  }

  lemma OnlyStale(x: Inputs)
    requires x.anchor.None?
    ensures Accepted(x) <==> x.manifest == x.live
  {
    assert Deserved(x, StaleManifest) <==> x.manifest != x.live;
  }

  lemma AcceptedIsInOrder(x: Inputs)
    requires x.anchor.Some? && Accepted(x)
    ensures InOrder(x, x.anchor.value)
  {
    hide ByLocation, Accepted, DepartureInOrder, Deserved, AnchoredRegister, AnchoredEntries;
    NothingStale(x);
    RegisterGrows(x);
    var current, anchored := ByLocation(x.dispositions.entries), ByLocation(AnchoredEntries(x.anchorDispositions));
    forall loc | loc in x.live && x.live[loc] == LEGACY
      ensures loc in x.anchor.value && x.anchor.value[loc] == LEGACY
    {
      NoNewLegacy(x, loc);
    }
    forall loc | loc in anchored ensures loc in current && current[loc] == anchored[loc] {
      NoEdit(x, loc);
    }
    forall loc | Left(x, loc) ensures DepartureInOrder(x, loc) {
      TruthfulDeparture(x, loc);
    }
  }

  lemma NothingStale(x: Inputs)
    requires Accepted(x)
    ensures x.manifest == x.live
  {
    hide ByLocation;
    assert !Deserved(x, StaleManifest);
  }

  lemma NoNewLegacy(x: Inputs, loc: Location)
    requires x.anchor.Some? && Accepted(x) && IsLegacy(x.live, loc)
    ensures IsLegacy(x.anchor.value, loc)
  {
    hide ByLocation;
    assert !Deserved(x, NewLegacy(loc));
  }

  lemma RegisterGrows(x: Inputs)
    requires x.anchor.Some? && Accepted(x)
    ensures AnchoredRegister(x.anchorDispositions) <= x.dispositions.register
  {
    hide ByLocation, SortedTexts, AnchoredRegister;
    var lost := AnchoredRegister(x.anchorDispositions) - x.dispositions.register;
    assert !Deserved(x, RegisterLost(FirstThree(SortedTexts(lost))));
    forall k | k in AnchoredRegister(x.anchorDispositions) ensures k in x.dispositions.register {
      assert k !in lost;
    }
  }

  lemma NoEdit(x: Inputs, loc: Location)
    requires x.anchor.Some? && Accepted(x) && loc in ByLocation(AnchoredEntries(x.anchorDispositions))
    ensures Get(ByLocation(x.dispositions.entries), loc) == Some(ByLocation(AnchoredEntries(x.anchorDispositions))[loc])
  {
    hide ByLocation;
    assert !Deserved(x, DispositionEdited(loc));
  }

  lemma TruthfulDeparture(x: Inputs, loc: Location)
    requires x.anchor.Some? && Accepted(x) && Left(x, loc)
    ensures DepartureInOrder(x, loc)
  {
    hide ByLocation, Left;
    var current, now := ByLocation(x.dispositions.entries), ClassNow(x.live, loc);
    assert !Deserved(x, LeftSilently(loc, now));
    assert !Deserved(x, WrongClass(loc, current[loc].to, now));
    var why := x.referenceProblem(current[loc].reference);
    assert why.Some? ==> !Deserved(x, BadReference(loc, why.value));
  }

  lemma InOrderIsAccepted(x: Inputs)
    requires x.anchor.Some? && InOrder(x, x.anchor.value)
    ensures Accepted(x)
  {
  }

  /** A departure in order is not reported. */
  lemma DepartureInOrderIsQuiet(x: Inputs, p: Problem)
    requires Deserved(x, p) && (p.LeftSilently? || p.WrongClass? || p.BadReference?)
    ensures !DepartureInOrder(x, p.loc)
  {
    hide ByLocation;
  }

  /** A reported departure names the class the location carries now. */
  lemma ReportedClassIsLive(x: Inputs, p: Problem)
    requires Deserved(x, p) && (p.LeftSilently? || p.WrongClass?)
    ensures NamesClass(Some(p.now), x.live, p.loc)
  {
    hide ByLocation;
  }

  lemma {:induction false} LastEntryWins(entries: seq<Disposition>, loc: Location, d: Disposition)
    ensures Get(ByLocation(entries), loc) == Some(d) <==>
            exists i :: 0 <= i < |entries| && entries[i] == d && d.location == loc
                        && forall j :: i < j < |entries| ==> entries[j].location != loc
  {
    if entries != [] {
      var n := |entries| - 1;
      LastEntryWins(entries[..n], loc, d);
      if entries[n].location != loc {
        if i :| 0 <= i < n && entries[..n][i] == d && d.location == loc
                && forall j :: i < j < n ==> entries[..n][j].location != loc {
          forall j | i < j < |entries| ensures entries[j].location != loc {
            assert j < n ==> entries[..n][j] == entries[j];
          }
        }
      }
    }
  }

  // ----- one verdict

  /** The locations of the entries, each where it first appears. */
  function FirstLocations(entries: seq<Disposition>): (locs: seq<Location>)
    ensures forall loc :: loc in locs <==> loc in ByLocation(entries)
  {
    if entries == [] then []
    else
      var n := |entries| - 1;
      var locs := FirstLocations(entries[..n]);
      if entries[n].location in locs then locs else locs + [entries[n].location]
  }

  function Edits(locs: seq<Location>, anchored: map<Location, Disposition>, current: map<Location, Disposition>): seq<Problem> {
    if locs == [] then []
    else
      var n := |locs| - 1;
      var loc := locs[n];
      Edits(locs[..n], anchored, current)
      + if loc in anchored && Get(current, loc) != Some(anchored[loc]) then [DispositionEdited(loc)] else []
  }

  /** The anchored disposition of each location must be the current one. */
  method EditedDispositions(entries: seq<Disposition>, current: map<Location, Disposition>) returns (out: seq<Problem>)
    ensures out == Edits(FirstLocations(entries), ByLocation(entries), current)
  {
    hide ByLocation;
    out := [];
    var anchored, locs := ByLocation(entries), FirstLocations(entries);
    for i := 0 to |locs|
      invariant out == Edits(locs[..i], anchored, current)
    {
      assert locs[..i + 1][..i] == locs[..i];
      if Get(current, locs[i]) != Some(anchored[locs[i]]) {
        out := out + [DispositionEdited(locs[i])];
      }
    }
    assert locs[..|locs|] == locs;
  }

  lemma {:induction false} EditsAre(
      locs: seq<Location>, anchored: map<Location, Disposition>, current: map<Location, Disposition>, p: Problem)
    ensures p in Edits(locs, anchored, current) <==>
            p.DispositionEdited? && p.loc in locs && p.loc in anchored && Get(current, p.loc) != Some(anchored[p.loc])
  {
    if locs != [] {
      var n := |locs| - 1;
      EditsAre(locs[..n], anchored, current, p);
      assert locs == locs[..n] + [locs[n]];
    }
  }

  /** The problems of one location that left legacy content. */
  function DepartureProblems(x: Inputs, current: map<Location, Disposition>, loc: Location): seq<Problem> {
    var now := ClassNow(x.live, loc);
    if loc !in current then [LeftSilently(loc, now)]
    else
      (if current[loc].to != Some(now) then [WrongClass(loc, current[loc].to, now)] else [])
      + var why := x.referenceProblem(current[loc].reference);
        if why.Some? then [BadReference(loc, why.value)] else []
  }

  ghost predicate DepartureProblem(x: Inputs, current: map<Location, Disposition>, p: Problem) {
    (p.LeftSilently? || p.WrongClass? || p.BadReference?) && p in DepartureProblems(x, current, p.loc)
  }

  lemma DepartureProblemsAt(x: Inputs, current: map<Location, Disposition>, loc: Location)
    ensures forall p :: p in DepartureProblems(x, current, loc) <==> DepartureProblem(x, current, p) && p.loc == loc
  {
  }

  function DeparturesFrom(x: Inputs, current: map<Location, Disposition>, locs: seq<Location>): seq<Problem>
    requires x.anchor.Some?
  {
    if locs == [] then []
    else
      var n := |locs| - 1;
      DeparturesFrom(x, current, locs[..n])
      + if Left(x, locs[n]) then DepartureProblems(x, current, locs[n]) else []
  }

  method Departures(x: Inputs, current: map<Location, Disposition>) returns (out: seq<Problem>)
    requires x.anchor.Some?
    ensures out == DeparturesFrom(x, current, SortedTexts(x.anchor.value.Keys))
    ensures forall p :: p in out <==> DepartureProblem(x, current, p) && Left(x, p.loc)
  {
    hide DepartureProblems, SortedTexts;
    out := [];
    var locs := SortTexts(x.anchor.value.Keys);
    for i := 0 to |locs|
      invariant out == DeparturesFrom(x, current, locs[..i])
    {
      var loc := locs[i];
      assert locs[..i + 1][..i] == locs[..i];
      if x.anchor.value[loc] == LEGACY && Get(x.live, loc) != Some(LEGACY) {
        out := out + DepartureProblems(x, current, loc);
      }
    }
    assert locs[..|locs|] == locs;
    forall p ensures p in out <==> DepartureProblem(x, current, p) && Left(x, p.loc) {
      DeparturesAre(x, current, locs, p);
    }
  }

  lemma {:induction false} DeparturesAre(x: Inputs, current: map<Location, Disposition>, locs: seq<Location>, p: Problem)
    requires x.anchor.Some?
    ensures p in DeparturesFrom(x, current, locs) ==> DepartureProblem(x, current, p) && Left(x, p.loc) && p.loc in locs
    ensures DepartureProblem(x, current, p) && Left(x, p.loc) && p.loc in locs ==> p in DeparturesFrom(x, current, locs)
  {
    hide DepartureProblems, DepartureProblem, Left;
    if locs != [] {
      var n := |locs| - 1;
      DeparturesAre(x, current, locs[..n], p);
      DepartureProblemsAt(x, current, locs[n]);
      assert locs == locs[..n] + [locs[n]];
    }
  }

  ghost function Newcomers(live: Classes, anchor: Classes): seq<Problem> {
    var locs := SortedTexts(set k | k in live && live[k] == LEGACY && Get(anchor, k) != Some(LEGACY));
    seq(|locs|, i requires 0 <= i < |locs| => NewLegacy(locs[i]))
  }

  /** Locations that are legacy now and were not in the anchored manifest. */
  method NewLegacyLocations(live: Classes, anchor: Classes) returns (out: seq<Problem>)
    ensures out == Newcomers(live, anchor)
  {
    hide SortedTexts;
    out := [];
    var locs := SortTexts(set k | k in live && live[k] == LEGACY && Get(anchor, k) != Some(LEGACY));
    for i := 0 to |locs|
      invariant |out| == i && forall j :: 0 <= j < i ==> out[j] == NewLegacy(locs[j])
    {
      out := out + [NewLegacy(locs[i])];
    }
  }

  lemma NewcomersAre(live: Classes, anchor: Classes, p: Problem)
    ensures p in Newcomers(live, anchor) <==> p.NewLegacy? && IsLegacy(live, p.loc) && !IsLegacy(anchor, p.loc)
  {
    hide SortedTexts;
    var locs := SortedTexts(set k | k in live && live[k] == LEGACY && Get(anchor, k) != Some(LEGACY));
    var out := Newcomers(live, anchor);
    if p.NewLegacy? && p.loc in locs {
      var i :| 0 <= i < |locs| && locs[i] == p.loc;
      assert out[i] == p;
    }
    if p in out {
      var i :| 0 <= i < |out| && out[i] == p;
      assert locs[i] in locs;
    }
  }

  /** The report in order: staleness, newcomers, the register, edits, departures. */
  ghost function Report(x: Inputs): seq<Problem> {
    (if x.manifest != x.live then [StaleManifest] else [])
    + if x.anchor.None? then []
      else
        Newcomers(x.live, x.anchor.value)
        + RegisterReport(AnchoredRegister(x.anchorDispositions) - x.dispositions.register)
        + Edits(FirstLocations(AnchoredEntries(x.anchorDispositions)), ByLocation(AnchoredEntries(x.anchorDispositions)),
                ByLocation(x.dispositions.entries))
        + DeparturesFrom(x, ByLocation(x.dispositions.entries), SortedTexts(x.anchor.value.Keys))
  }

  ghost function RegisterReport(lost: set<Location>): seq<Problem> {
    if lost == {} then [] else [RegisterLost(FirstThree(SortedTexts(lost)))]
  }

  /** `ratchet_problems` reports every problem the inputs deserve and nothing else, in this order. */
  method RatchetProblems(x: Inputs) returns (out: seq<Problem>)
    ensures out == Report(x)
    ensures forall p :: p in out <==> Deserved(x, p)
  {
    hide Newcomers, Edits, DeparturesFrom, ByLocation, SortedTexts, Deserved, FirstThree;
    forall p ensures p in Report(x) <==> Deserved(x, p) {
      ReportedIsDeserved(x, p);
    }
    out := [];
    if x.manifest != x.live {
      out := out + [StaleManifest];
    }
    if x.anchor.None? {
      return;
    }
    var newcomers := NewLegacyLocations(x.live, x.anchor.value);
    out := out + newcomers;
    var lost := SortTexts(AnchoredRegister(x.anchorDispositions) - x.dispositions.register);
    LostIsListed(AnchoredRegister(x.anchorDispositions) - x.dispositions.register, lost);
    if lost != [] {
      out := out + [RegisterLost(FirstThree(lost))];
    }
    var current := ByLocation(x.dispositions.entries);
    var edited := EditedDispositions(AnchoredEntries(x.anchorDispositions), current);
    out := out + edited;
    var left := Departures(x, current);
    out := out + left;
  }

  /** The report lists exactly the deserved problems. */
  lemma ReportedIsDeserved(x: Inputs, p: Problem)
    ensures p in Report(x) <==> Deserved(x, p)
  {
    hide Newcomers, Edits, DeparturesFrom, DepartureProblem, ByLocation, SortedTexts, FirstThree;
    if x.anchor.Some? {
      var current, locs := ByLocation(x.dispositions.entries), SortedTexts(x.anchor.value.Keys);
      NewcomersAre(x.live, x.anchor.value, p);
      EditsAre(FirstLocations(AnchoredEntries(x.anchorDispositions)), ByLocation(AnchoredEntries(x.anchorDispositions)), current, p);
      DeparturesAre(x, current, locs, p);
      DepartureCases(x, current, p);
    }
  }

  lemma LostIsListed(s: set<Location>, listed: seq<Location>)
    requires forall k :: k in listed <==> k in s
    ensures listed == [] <==> s == {}
  {
    if listed != [] {
      assert listed[0] in s;
    }
    if s != {} {
      var k :| k in s;
      assert k in listed;
    }
  }

  lemma DepartureCases(x: Inputs, current: map<Location, Disposition>, p: Problem)
    ensures DepartureProblem(x, current, p) <==>
            match p
            case LeftSilently(loc, now) => now == ClassNow(x.live, loc) && loc !in current
            case WrongClass(loc, said, now) =>
              now == ClassNow(x.live, loc) && loc in current && said == current[loc].to && said != Some(now)
            case BadReference(loc, why) => loc in current && x.referenceProblem(current[loc].reference) == Some(why)
            case _ => false
  {
  }

  // ----- the order of the report

  /** The check a problem comes from. */
  function Check(p: Problem): nat {
    match p
    case StaleManifest => 0
    case NewLegacy(_) => 1
    case RegisterLost(_) => 2
    case DispositionEdited(_) => 3
    case _ => 4
  }

  /** Earlier checks first; newcomers and departures by location, those of one location together. */
  ghost predicate Reported(p: Problem, q: Problem) {
    && Check(p) <= Check(q)
    && (p.NewLegacy? && q.NewLegacy? ==> Precedes(p.loc, q.loc))
    && (Check(p) == 4 && Check(q) == 4 ==> p.loc == q.loc || Precedes(p.loc, q.loc))
  }

  ghost predicate InReportOrder(s: seq<Problem>) {
    forall i, j :: 0 <= i < j < |s| ==> Reported(s[i], s[j])
  }

  lemma OrderJoins(a: seq<Problem>, b: seq<Problem>)
    requires InReportOrder(a) && InReportOrder(b) && forall p, q :: p in a && q in b ==> Reported(p, q)
    ensures InReportOrder(a + b)
  {
    hide Reported;
    var s := a + b;
    forall i, j | 0 <= i < j < |s| ensures Reported(s[i], s[j]) {
      assert i < |a| ==> s[i] in a;
      assert j >= |a| ==> s[j] in b;
    }
  }

  lemma NewcomersInOrder(live: Classes, anchor: Classes)
    ensures InReportOrder(Newcomers(live, anchor))
  {
    hide SortedTexts, Precedes;
    var s := set k | k in live && live[k] == LEGACY && Get(anchor, k) != Some(LEGACY);
    var out := Newcomers(live, anchor);
    forall i, j | 0 <= i < j < |out| ensures Reported(out[i], out[j]) {
      SortedTextsAscend(s, i, j);
    }
  }

  lemma {:induction false} EditsInOrder(
      locs: seq<Location>, anchored: map<Location, Disposition>, current: map<Location, Disposition>)
    ensures InReportOrder(Edits(locs, anchored, current))
  {
    forall p | p in Edits(locs, anchored, current) ensures Check(p) == 3 {
      EditsAre(locs, anchored, current, p);
    }
  }

  lemma {:induction false} DeparturesInOrder(x: Inputs, current: map<Location, Disposition>, locs: seq<Location>)
    requires x.anchor.Some? && forall i, j :: 0 <= i < j < |locs| ==> Precedes(locs[i], locs[j])
    ensures InReportOrder(DeparturesFrom(x, current, locs))
  {
    hide DepartureProblems, DepartureProblem, Precedes, InReportOrder, Left;
    if locs == [] {
      NothingInOrder();
    } else {
      var n := |locs| - 1;
      DeparturesInOrder(x, current, locs[..n]);
      var a, b := DeparturesFrom(x, current, locs[..n]), if Left(x, locs[n]) then DepartureProblems(x, current, locs[n]) else [];
      DeparturesAtOne(x, current, locs[n]);
      NothingInOrder();
      forall p, q | p in a && q in b ensures Reported(p, q) {
        DeparturesAre(x, current, locs[..n], p);
        DepartureProblemsAt(x, current, locs[n]);
        OnlyDepartures(x, current, p);
        OnlyDepartures(x, current, q);
      }
      OrderJoins(a, b);
    }
  }

  lemma NothingInOrder()
    ensures InReportOrder([])
  {
  }

  lemma OnlyDepartures(x: Inputs, current: map<Location, Disposition>, p: Problem)
    requires DepartureProblem(x, current, p)
    ensures Check(p) == 4
  {
  }

  lemma DeparturesAtOne(x: Inputs, current: map<Location, Disposition>, loc: Location)
    ensures InReportOrder(DepartureProblems(x, current, loc))
  {
  }

  /** The report runs through the checks in order, by location where a check goes through many. */
  lemma ReportInOrder(x: Inputs)
    ensures InReportOrder(Report(x))
  {
    hide Newcomers, Edits, DeparturesFrom, InReportOrder, RegisterReport, ByLocation, SortedTexts, Precedes;
    var stale := if x.manifest != x.live then [StaleManifest] else [];
    OneInOrder(StaleManifest);
    NothingInOrder();
    if x.anchor.None? {
      assert Report(x) == stale;
    } else {
      var lost := AnchoredRegister(x.anchorDispositions) - x.dispositions.register;
      var current, locs := ByLocation(x.dispositions.entries), SortedTexts(x.anchor.value.Keys);
      var anchored, edited := ByLocation(AnchoredEntries(x.anchorDispositions)), FirstLocations(AnchoredEntries(x.anchorDispositions));
      SegmentChecks(x, lost, edited, anchored, current, locs);
      NewcomersInOrder(x.live, x.anchor.value);
      RegisterInOrder(lost);
      EditsInOrder(edited, anchored, current);
      forall i, j | 0 <= i < j < |locs| ensures Precedes(locs[i], locs[j]) {
        SortedTextsAscend(x.anchor.value.Keys, i, j);
      }
      DeparturesInOrder(x, current, locs);
      var a := Newcomers(x.live, x.anchor.value);
      var b, c, d := RegisterReport(lost), Edits(edited, anchored, current), DeparturesFrom(x, current, locs);
      OrderJoins(a, b);
      OrderJoins(a + b, c);
      OrderJoins(a + b + c, d);
      OrderJoins(stale, a + b + c + d);
    }
  }

  lemma OneInOrder(p: Problem)
    ensures InReportOrder([p])
  {
  }

  lemma RegisterInOrder(lost: set<Location>)
    ensures InReportOrder(RegisterReport(lost))
  {
  }

  lemma SegmentChecks(x: Inputs, lost: set<Location>, edited: seq<Location>, anchored: map<Location, Disposition>,
                      current: map<Location, Disposition>, locs: seq<Location>)
    requires x.anchor.Some?
    ensures forall p :: p in Newcomers(x.live, x.anchor.value) ==> Check(p) == 1
    ensures forall p :: p in RegisterReport(lost) ==> Check(p) == 2
    ensures forall p :: p in Edits(edited, anchored, current) ==> Check(p) == 3
    ensures forall p :: p in DeparturesFrom(x, current, locs) ==> Check(p) == 4
  {
    hide Newcomers, Edits, DeparturesFrom, SortedTexts, Left, DepartureProblem;
    forall p ensures p in Newcomers(x.live, x.anchor.value) ==> Check(p) == 1 {
      NewcomersAre(x.live, x.anchor.value, p);
    }
    forall p ensures p in Edits(edited, anchored, current) ==> Check(p) == 3 {
      EditsAre(edited, anchored, current, p);
    }
    forall p | p in DeparturesFrom(x, current, locs) ensures Check(p) == 4 {
      DeparturesAre(x, current, locs, p);
      OnlyDepartures(x, current, p);
    }
  }

  // ----- runs

  /** One commit: its annotations, its two checked-in files, and how its files answer a reference. */
  datatype Commit = Commit(
    live: Classes,
    manifest: Classes,
    dispositions: Dispositions,
    referenceProblem: Option<Text> -> Option<Text>)

  /** The check of a commit against its predecessor. */
  function Against(previous: Commit, c: Commit): Inputs {
    Inputs(c.live, c.manifest, c.dispositions, Some(previous.manifest), Some(previous.dispositions), c.referenceProblem)
  }

  /** A first introduction, then commits each accepted against the one before. */
  ghost predicate IsRun(cs: seq<Commit>) {
    && cs != []
    && cs[0].manifest == cs[0].live
    && forall i :: 0 < i < |cs| ==> Accepted(Against(cs[i - 1], cs[i]))
  }

  function Recorded(c: Commit): map<Location, Disposition> {
    ByLocation(c.dispositions.entries)
  }

  /** What one accepted commit guarantees about its predecessor. */
  lemma AcceptedStep(previous: Commit, c: Commit)
    requires Accepted(Against(previous, c))
    ensures c.manifest == c.live
    ensures forall loc :: IsLegacy(c.live, loc) ==> IsLegacy(previous.manifest, loc)
    ensures previous.dispositions.register <= c.dispositions.register
    ensures forall loc :: loc in Recorded(previous) ==> Get(Recorded(c), loc) == Some(Recorded(previous)[loc])
    ensures forall loc :: IsLegacy(previous.manifest, loc) && !IsLegacy(c.live, loc) ==>
              loc in Recorded(c) && NamesClass(Recorded(c)[loc].to, c.live, loc)
              && c.referenceProblem(Recorded(c)[loc].reference) == None
  {
    hide Accepted, ByLocation, NamesClass;
    AcceptedIffInOrder(Against(previous, c));
  }

  lemma {:induction false} ManifestIsLive(cs: seq<Commit>, i: nat)
    requires IsRun(cs) && i < |cs|
    ensures cs[i].manifest == cs[i].live
  {
    if i > 0 {
      AcceptedStep(cs[i - 1], cs[i]);
    }
  }

  /** Along a run legacy content only shrinks and the register only grows. */
  lemma {:induction false} LegacyOnlyShrinks(cs: seq<Commit>, i: nat, j: nat)
    requires IsRun(cs) && i <= j < |cs|
    ensures forall loc :: IsLegacy(cs[j].live, loc) ==> IsLegacy(cs[i].live, loc)
    ensures cs[i].dispositions.register <= cs[j].dispositions.register
    decreases j
  {
    if i < j {
      LegacyOnlyShrinks(cs, i, j - 1);
      AcceptedStep(cs[j - 1], cs[j]);
      ManifestIsLive(cs, j - 1);
    }
  }

  /** A disposition once recorded is never edited or dropped. */
  lemma {:induction false} DispositionsStay(cs: seq<Commit>, i: nat, j: nat, loc: Location)
    requires IsRun(cs) && i <= j < |cs| && loc in Recorded(cs[i])
    ensures Get(Recorded(cs[j]), loc) == Some(Recorded(cs[i])[loc])
    decreases j
  {
    if i < j {
      DispositionsStay(cs, i, j - 1, loc);
      AcceptedStep(cs[j - 1], cs[j]);
    }
  }

  /** The location was legacy up to commit m - 1 and left with commit m. */
  ghost predicate LeftAt(cs: seq<Commit>, loc: Location, m: nat) {
    0 < m < |cs| && IsLegacy(cs[m - 1].live, loc) && !IsLegacy(cs[m].live, loc)
  }

  lemma {:induction false} LeftSomewhere(cs: seq<Commit>, loc: Location, i: nat, j: nat) returns (m: nat)
    requires i < j < |cs| && IsLegacy(cs[i].live, loc) && !IsLegacy(cs[j].live, loc)
    ensures i < m <= j && LeftAt(cs, loc, m)
    decreases j
  {
    if IsLegacy(cs[j - 1].live, loc) {
      m := j;
    } else {
      m := LeftSomewhere(cs, loc, i, j - 1);
    }
  }

  /**
   The ratchet over whole runs: a location that was legacy and no longer is left with one
   commit, never returns, and from that commit on carries one unchanging disposition that names
   the class it left for and a reference that commit's own files verify.
   */
  lemma {:induction false} DeparturesAreFinalAndRecorded(cs: seq<Commit>, i: nat, j: nat, loc: Location)
    returns (m: nat, d: Disposition)
    requires IsRun(cs) && i < j < |cs|
    requires IsLegacy(cs[i].live, loc) && !IsLegacy(cs[j].live, loc)
    ensures i < m <= j && LeftAt(cs, loc, m)
    ensures loc in cs[m].live && cs[m].live[loc] != [] ==> d.to == Some(cs[m].live[loc])
    ensures loc !in cs[m].live || cs[m].live[loc] == [] ==> d.to == Some(Ascii("removed"))
    ensures cs[m].referenceProblem(d.reference) == None
    ensures forall k :: m <= k < |cs| ==> !IsLegacy(cs[k].live, loc) && Get(Recorded(cs[k]), loc) == Some(d)
    ensures forall k: nat :: LeftAt(cs, loc, k) ==> k == m
  {
    m := LeftSomewhere(cs, loc, i, j);
    ManifestIsLive(cs, m - 1);
    AcceptedStep(cs[m - 1], cs[m]);
    d := Recorded(cs[m])[loc];
    forall k | m <= k < |cs|
      ensures !IsLegacy(cs[k].live, loc) && Get(Recorded(cs[k]), loc) == Some(d)
    {
      LegacyOnlyShrinks(cs, m, k);
      DispositionsStay(cs, m, k, loc);
    }
    forall k: nat | LeftAt(cs, loc, k) ensures k == m {
      if k < m {
        LegacyOnlyShrinks(cs, k, m - 1);
      }
    }
  }
}
