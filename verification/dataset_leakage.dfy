/** DS3 of `traigent_schema/certification/dataset_record_verifier.py`. */
module DatasetLeakage {
  // Corpora are declared disjoint by token lists, and the claim is upgraded only when every list
  // behind it was supplied, matches its signed digests and was found disjoint.

  import opened Outcomes
  import opened Sorting
  import opened DatasetComposition

  type Ref = Text

  /** The supplied token lists of the leakage corpora. */
  type Lists = map<Ref, seq<Text>>

  datatype Kind = DeclaredOverlap | SplitDisjointness | OtherKind

  datatype Finding = Finding(kind: Kind, a: Ref, b: Ref, asserted: bool, overlapCount: int)

  datatype Declared = Declared(ref: Ref, leafCount: int, digest: Digest)

  /** The report, and the attestation digest the manifest repeats beside its own. */
  datatype Report = Report(
    findings: seq<Finding>,
    digests: seq<Declared>,
    scope: Text,
    attestationDigest: Option<AttestationDigest>,
    manifestDigest: Option<AttestationDigest>)

  datatype Attested = Attested(ref: Ref, leafCount: int, root: Digest, blind: Text)

  /** The role digest of everything an attestation says except its own digest. */
  datatype AttestationDigest = AttestationDigest(corpora: seq<Attested>, blind: Text, scope: Text, rest: Text)

  datatype Attestation = Attestation(corpora: seq<Attested>, blind: Text, scope: Text, rest: Text, digest: AttestationDigest)

  datatype Refusal =
    | DigestMismatch
    | AttestationMissing
    | BlindMismatch
    | CompletenessMismatch
    | DisjointnessViolation(index: nat)
    | OverlapMismatch(index: nat)
    | SupportRowMismatch

  predicate IsRelevant(f: Finding) {
    f.kind.DeclaredOverlap? || f.kind.SplitDisjointness?
  }

  function Tokens(leaves: seq<Text>): set<Text> {
    set x | x in leaves
  }

  function Common(lists: Lists, a: Ref, b: Ref): set<Text>
    requires a in lists && b in lists
  {
    Tokens(lists[a]) * Tokens(lists[b])
  }

  // ----- supplied lists against their digests

  /** Keyed by ref; a later entry for one ref would win. */
  function ByRef(digests: seq<Declared>): map<Ref, Declared> {
    if digests == [] then map[]
    else
      var d := digests[|digests| - 1];
      ByRef(digests[..|digests| - 1])[d.ref := d]
  }

  lemma {:induction false} ByRefIsListed(digests: seq<Declared>, ref: Ref)
    requires ref in ByRef(digests)
    ensures ByRef(digests)[ref] in digests && ByRef(digests)[ref].ref == ref
    decreases |digests|
  {
    var n := |digests| - 1;
    if digests[n].ref != ref {
      ByRefIsListed(digests[..n], ref);
    }
  }

  ghost predicate MatchesDigest(report: Report, ref: Ref, leaves: seq<Text>) {
    var declared := ByRef(report.digests);
    && ref in declared
    && |leaves| == declared[ref].leafCount
    && LeafListDigest(Sort(leaves, LexLeq)) == declared[ref].digest
  }

  /** The supplied lists, each sorted. */
  ghost predicate SortedLists(sorted: Lists, lists: Lists) {
    sorted.Keys == lists.Keys && forall ref :: ref in lists ==> sorted[ref] == Sort(lists[ref], LexLeq)
  }

  /** `_check_leaf_list_digests`. */
  method CheckLeafListDigests(report: Report, lists: Lists) returns (r: Result<Lists, Refusal>)
    ensures r.Ok? <==> forall ref :: ref in lists ==> MatchesDigest(report, ref, lists[ref])
    ensures r.Ok? ==> SortedLists(r.value, lists)
  {
    var recomputed: Lists := map[];
    var declared := ByRef(report.digests);
    var rest := lists.Keys;
    while rest != {}
      invariant rest <= lists.Keys && recomputed.Keys == lists.Keys - rest
      invariant forall ref :: ref in lists && ref !in rest ==>
        MatchesDigest(report, ref, lists[ref]) && recomputed[ref] == Sort(lists[ref], LexLeq)
      decreases rest
    {
      var ref :| ref in rest;
      rest := rest - {ref};
      var leaves := Sort(lists[ref], LexLeq);
      assert |leaves| == |multiset(leaves)| == |lists[ref]|;
      if ref !in declared || |leaves| != declared[ref].leafCount || LeafListDigest(leaves) != declared[ref].digest {
        return Err(DigestMismatch);
      }
      recomputed := recomputed[ref := leaves];
    }
    r := Ok(recomputed);
  }

  // ----- the attestation

  ghost predicate AttestedMatches(c: Attested, lists: Lists) {
    c.ref in lists ==> c.leafCount == |lists[c.ref]| && c.root == LeafListDigest(lists[c.ref])
  }

  function DigestOf(a: Attestation): AttestationDigest {
    AttestationDigest(a.corpora, a.blind, a.scope, a.rest)
  }

  /** The attestation, the manifest and the report carry the one digest of what is attested. */
  predicate DigestsBind(report: Report, a: Attestation) {
    a.digest == DigestOf(a) && report.manifestDigest == Some(DigestOf(a)) && report.attestationDigest == Some(DigestOf(a))
  }

  /** One scope with the report, and one blind for every corpus. */
  ghost predicate ScopeBinds(report: Report, a: Attestation) {
    a.scope == report.scope && forall c :: c in a.corpora ==> c.blind == a.blind
  }

  ghost predicate CorporaMatch(a: Attestation, lists: Lists) {
    forall c :: c in a.corpora ==> AttestedMatches(c, lists)
  }

  ghost predicate AttestationConsistent(report: Report, a: Attestation, lists: Lists) {
    DigestsBind(report, a) && ScopeBinds(report, a) && CorporaMatch(a, lists)
  }

  predicate NoDigestDeclared(report: Report) {
    report.manifestDigest.None? && report.attestationDigest.None?
  }

  /** `_check_attestation_digest_bindings`. */
  method CheckBindings(report: Report, a: Attestation) returns (refusal: Option<Refusal>)
    ensures refusal == Some(AttestationMissing) <==> !DigestsBind(report, a)
    ensures refusal == Some(BlindMismatch) <==> DigestsBind(report, a) && a.scope != report.scope
    ensures refusal in {None, Some(AttestationMissing), Some(BlindMismatch)}
  {
    var digest := DigestOf(a);
    if digest != a.digest || report.manifestDigest != Some(digest) || report.attestationDigest != Some(digest) {
      return Some(AttestationMissing);
    }
    if a.scope != report.scope {
      return Some(BlindMismatch);
    }
    refusal := None;
  }

  /** `_check_leaf_generation_attestation`: the verdict and every refusal, in the order of the checks. */
  method CheckAttestation(report: Report, attestation: Option<Attestation>, lists: Lists) returns (r: Result<bool, Refusal>)
    ensures r == Ok(true) <==> attestation.Some? && AttestationConsistent(report, attestation.value, lists)
    ensures r == Ok(false) <==> attestation.None? && NoDigestDeclared(report)
    ensures r == Err(AttestationMissing) <==>
            if attestation.None? then !NoDigestDeclared(report) else !DigestsBind(report, attestation.value)
    ensures r == Err(BlindMismatch) <==>
            attestation.Some? && DigestsBind(report, attestation.value) && !ScopeBinds(report, attestation.value)
    ensures r == Err(CompletenessMismatch) <==>
            && attestation.Some? && DigestsBind(report, attestation.value) && ScopeBinds(report, attestation.value)
            && !CorporaMatch(attestation.value, lists)
  {
    if attestation.None? {
      return if NoDigestDeclared(report) then Ok(false) else Err(AttestationMissing);
    }
    var a := attestation.value;
    var refusal := CheckBindings(report, a);
    if refusal.Some? {
      return Err(refusal.value);
    }
    for i := 0 to |a.corpora|
      invariant forall j :: 0 <= j < i ==> a.corpora[j].blind == a.blind
    {
      assert a.corpora[i] in a.corpora;
      if a.corpora[i].blind != a.blind {
        return Err(BlindMismatch);
      }
    }
    for i := 0 to |a.corpora|
      invariant forall j :: 0 <= j < i ==> AttestedMatches(a.corpora[j], lists)
    {
      var c := a.corpora[i];
      assert c in a.corpora;
      if c.ref in lists && (c.leafCount != |lists[c.ref]| || c.root != LeafListDigest(lists[c.ref])) {
        return Err(CompletenessMismatch);
      }
    }
    r := Ok(true);
  }

  // ----- overlap and disjointness

  /** Both lists are there to recompute the finding from. */
  predicate IsCheckable(f: Finding, lists: Lists) {
    IsRelevant(f) && f.a in lists && f.b in lists
  }

  ghost predicate FindingHolds(f: Finding, lists: Lists) {
    IsCheckable(f, lists) ==>
      && (f.asserted ==> Common(lists, f.a, f.b) == {})
      && |Common(lists, f.a, f.b)| == f.overlapCount
  }

  /** The finding asserts disjointness of two lists that share a token. */
  predicate BreaksItsAssertion(f: Finding, lists: Lists) {
    IsCheckable(f, lists) && f.asserted && Common(lists, f.a, f.b) != {}
  }

  function CountCheckable(findings: seq<Finding>, lists: Lists): nat {
    if findings == [] then 0
    else
      CountCheckable(findings[..|findings| - 1], lists) + if IsCheckable(findings[|findings| - 1], lists) then 1 else 0
  }

  /** `_check_overlap_and_disjointness`: every finding on its own terms. */
  method CheckOverlapAndDisjointness(findings: seq<Finding>, lists: Lists) returns (r: Result<nat, Refusal>)
    ensures r.Ok? <==> forall f :: f in findings ==> FindingHolds(f, lists)
    ensures r.Ok? ==> r.value == CountCheckable(findings, lists)
    ensures r.Err? ==>
              && (r.error.DisjointnessViolation? || r.error.OverlapMismatch?)
              && r.error.index < |findings| && !FindingHolds(findings[r.error.index], lists)
              && (forall j :: 0 <= j < r.error.index ==> FindingHolds(findings[j], lists))
              && (r.error.DisjointnessViolation? <==> BreaksItsAssertion(findings[r.error.index], lists))
  {
    var checked := 0;
    for i := 0 to |findings|
      invariant forall j :: 0 <= j < i ==> FindingHolds(findings[j], lists)
      invariant checked == CountCheckable(findings[..i], lists)
    {
      assert findings[..i + 1][..i] == findings[..i] && findings[i] in findings;
      var f := findings[i];
      if !IsRelevant(f) || f.a !in lists || f.b !in lists {
        continue;
      }
      var intersection := Common(lists, f.a, f.b);
      if f.asserted && intersection != {} {
        return Err(DisjointnessViolation(i));
      }
      if |intersection| != f.overlapCount {
        return Err(OverlapMismatch(i));
      }
      checked := checked + 1;
    }
    assert findings[..|findings|] == findings;
    r := Ok(checked);
  }

  /** A pair of corpora, whichever way round a finding states it. */
  datatype Pair = Pair(first: Ref, second: Ref)

  function PairOf(f: Finding): Pair {
    if LexLeq(f.a, f.b) then Pair(f.a, f.b) else Pair(f.b, f.a)
  }

  ghost predicate AssertedFor(findings: seq<Finding>, p: Pair) {
    exists f :: f in findings && IsRelevant(f) && PairOf(f) == p && f.asserted
  }

  ghost predicate NamedBy(findings: seq<Finding>, p: Pair) {
    exists f :: f in findings && IsRelevant(f) && PairOf(f) == p
  }

  ghost predicate PairEstablished(findings: seq<Finding>, lists: Lists, p: Pair) {
    && AssertedFor(findings, p)
    && p.first in lists && p.second in lists
    && Common(lists, p.first, p.second) == {}
  }

  /** Some pair is named, and every named pair is asserted, supplied and disjoint. */
  ghost predicate Established(findings: seq<Finding>, lists: Lists) {
    && (exists p :: NamedBy(findings, p))
    && (forall p :: NamedBy(findings, p) ==> PairEstablished(findings, lists, p))
  }

  /** The `pairs` dict: whether some finding about the pair asserts disjointness. */
  method CollectPairs(findings: seq<Finding>) returns (pairs: map<Pair, bool>)
    ensures forall p :: p in pairs <==> NamedBy(findings, p)
    ensures forall p :: p in pairs ==> (pairs[p] <==> AssertedFor(findings, p))
  {
    pairs := map[];
    for i := 0 to |findings|
      invariant forall p :: p in pairs <==> NamedBy(findings[..i], p)
      invariant forall p :: p in pairs ==> (pairs[p] <==> AssertedFor(findings[..i], p))
    {
      PairsGrow(findings[..i], findings[i]);
      assert findings[..i + 1] == findings[..i] + [findings[i]];
      hide NamedBy, AssertedFor;
      if IsRelevant(findings[i]) {
        var key := PairOf(findings[i]);
        NotNamedNotAsserted(findings[..i], key);
        pairs := pairs[key := (if key in pairs then pairs[key] else false) || findings[i].asserted];
      }
    }
    assert findings[..|findings|] == findings;
  }

  lemma PairsGrow(findings: seq<Finding>, f: Finding)
    ensures forall p :: NamedBy(findings + [f], p) <==> NamedBy(findings, p) || (IsRelevant(f) && PairOf(f) == p)
    ensures forall p :: AssertedFor(findings + [f], p) <==> AssertedFor(findings, p) || (IsRelevant(f) && PairOf(f) == p && f.asserted)
  {
    forall p ensures NamedBy(findings, p) || (IsRelevant(f) && PairOf(f) == p) ==> NamedBy(findings + [f], p) {
      if NamedBy(findings, p) {
        var g :| g in findings && IsRelevant(g) && PairOf(g) == p;
        assert g in findings + [f];
      }
      assert f in findings + [f];
    }
    forall p
      ensures AssertedFor(findings, p) || (IsRelevant(f) && PairOf(f) == p && f.asserted) ==> AssertedFor(findings + [f], p)
    {
      if AssertedFor(findings, p) {
        var g :| g in findings && IsRelevant(g) && PairOf(g) == p && g.asserted;
        assert g in findings + [f];
      }
      assert f in findings + [f];
    }
  }

  lemma NotNamedNotAsserted(findings: seq<Finding>, p: Pair)
    ensures AssertedFor(findings, p) ==> NamedBy(findings, p)
  {
  }

  /** `_ds3_disjointness_established`. */
  method DisjointnessEstablished(findings: seq<Finding>, lists: Lists) returns (b: bool)
    ensures b <==> Established(findings, lists)
  {
    var pairs := CollectPairs(findings);
    hide NamedBy, AssertedFor;
    if pairs == map[] {
      return false;
    }
    ghost var some :| some in pairs;
    var rest := pairs.Keys;
    while rest != {}
      invariant rest <= pairs.Keys
      invariant forall p :: p in pairs && p !in rest ==> PairEstablished(findings, lists, p)
      decreases rest
    {
      var p :| p in rest;
      rest := rest - {p};
      if !pairs[p] || p.first !in lists || p.second !in lists || Common(lists, p.first, p.second) != {} {
        assert NamedBy(findings, p);
        return false;
      }
    }
    b := true;
  }

  // ----- the decision

  ghost predicate IsRelevantRef(findings: seq<Finding>, ref: Ref) {
    exists f :: f in findings && IsRelevant(f) && (f.a == ref || f.b == ref)
  }

  /** `_ds3_relevant_corpus_refs`. */
  method RelevantRefs(findings: seq<Finding>) returns (refs: set<Ref>)
    ensures forall ref :: ref in refs <==> IsRelevantRef(findings, ref)
  {
    refs := {};
    for i := 0 to |findings|
      invariant forall ref :: ref in refs <==>
        exists j :: 0 <= j < i && IsRelevant(findings[j]) && (findings[j].a == ref || findings[j].b == ref)
    {
      if IsRelevant(findings[i]) {
        refs := refs + {findings[i].a, findings[i].b};
      }
    }
    forall ref | IsRelevantRef(findings, ref) ensures ref in refs {
      var f :| f in findings && IsRelevant(f) && (f.a == ref || f.b == ref);
      var j :| 0 <= j < |findings| && findings[j] == f;
    }
  }

  ghost predicate IsAttested(attestation: Option<Attestation>, ref: Ref) {
    attestation.Some? && exists c :: c in attestation.value.corpora && c.ref == ref
  }

  /** Every corpus the claim is about was supplied and attested, and there is one. */
  ghost predicate FullyCovered(findings: seq<Finding>, attestation: Option<Attestation>, lists: Lists) {
    && (exists ref :: IsRelevantRef(findings, ref))
    && (forall ref :: IsRelevantRef(findings, ref) ==> ref in lists && IsAttested(attestation, ref))
  }

  /** No list was supplied at all, or one the claim depends on is too long to be read. */
  ghost predicate Abstains(findings: seq<Finding>, supplied: Lists, noLists: bool) {
    noLists || exists ref :: IsRelevantRef(findings, ref) && ref in supplied && |supplied[ref]| > MAX_LEAF_LIST
  }

  /** `_derive_ds3`; sorted holds the supplied lists after their digest check. */
  method DeriveDs3(requireLists: bool, report: Report, attestation: Option<Attestation>, supplied: Lists, noLists: bool,
                   sorted: Lists, consistent: bool)
    returns (r: Result<Basis, Refusal>)
    ensures r == Ok(IssuerVerified) <==>
              && consistent && FullyCovered(report.findings, attestation, sorted) && Established(report.findings, sorted)
              && !Abstains(report.findings, supplied, noLists)
    ensures r == Ok(Abstained) <==> Abstains(report.findings, supplied, noLists) && !requireLists
    ensures r.Err? <==> Abstains(report.findings, supplied, noLists) && requireLists
  {
    var relevant := RelevantRefs(report.findings);
    var attested := if attestation.Some? then (set c | c in attestation.value.corpora :: c.ref) else {};
    var covered := relevant != {} && relevant <= sorted.Keys * attested;
    assert covered <==> FullyCovered(report.findings, attestation, sorted) by {
      CoverageIs(report.findings, attestation, sorted, relevant, attested);
    }
    hide IsRelevantRef, IsAttested, FullyCovered, Established;
    var established := DisjointnessEstablished(report.findings, sorted);
    var basis := if consistent && covered && established then IssuerVerified else ClientDeclared;
    var abstains := noLists || exists ref :: ref in relevant && ref in supplied && |supplied[ref]| > MAX_LEAF_LIST;
    if abstains && requireLists {
      return Err(SupportRowMismatch);
    }
    r := Ok(if abstains then Abstained else basis);
  }

  lemma CoverageIs(findings: seq<Finding>, attestation: Option<Attestation>, lists: Lists, relevant: set<Ref>, attested: set<Ref>)
    requires forall ref :: ref in relevant <==> IsRelevantRef(findings, ref)
    requires forall ref :: ref in attested <==> IsAttested(attestation, ref)
    ensures relevant != {} && relevant <= lists.Keys * attested <==> FullyCovered(findings, attestation, lists)
  {
    hide IsRelevantRef, IsAttested;
    if relevant != {} {
      var ref :| ref in relevant;
    }
  }

  /** The leakage stages of `_verify`, in order. */
  method VerifyLeakage(requireLists: bool, report: Report, attestation: Option<Attestation>, supplied: Lists, itemSetSupplied: bool)
    returns (r: Result<Basis, Refusal>)
    ensures r == Ok(IssuerVerified) <==> Ds3Verified(report, attestation, supplied)
  {
    hide MatchesDigest, FindingHolds, Established, AttestationConsistent, FullyCovered, Abstains, SortedLists;
    var noLists := supplied == map[] && !itemSetSupplied;
    var sorted := CheckLeafListDigests(report, supplied);
    if sorted.Err? {
      return Err(sorted.error);
    }
    SortedIsDetermined(supplied, sorted.value);
    var consistent := CheckAttestation(report, attestation, sorted.value);
    if consistent.Err? {
      return Err(consistent.error);
    }
    var overlaps := CheckOverlapAndDisjointness(report.findings, sorted.value);
    if overlaps.Err? {
      return Err(overlaps.error);
    }
    CoveredHasLists(report.findings, attestation, supplied, sorted.value, noLists);
    r := DeriveDs3(requireLists, report, attestation, supplied, noLists, sorted.value, consistent.value);
  }

  lemma CoveredHasLists(findings: seq<Finding>, attestation: Option<Attestation>, supplied: Lists, sorted: Lists, noLists: bool)
    requires sorted == SortedOf(supplied) && (noLists ==> supplied == map[])
    ensures FullyCovered(findings, attestation, sorted) ==>
              (Abstains(findings, supplied, noLists) <==> Abstains(findings, supplied, false))
  {
    hide IsRelevantRef, IsAttested;
  }

  ghost function SortedOf(lists: Lists): Lists {
    map ref | ref in lists :: Sort(lists[ref], LexLeq)
  }

  lemma SortedIsDetermined(lists: Lists, sorted: Lists)
    requires SortedLists(sorted, lists)
    ensures sorted == SortedOf(lists)
  {
  }

  /** All the checks behind an issuer-verified DS3. */
  ghost predicate Ds3Verified(report: Report, attestation: Option<Attestation>, supplied: Lists) {
    var sorted := SortedOf(supplied);
    && (forall ref :: ref in supplied ==> MatchesDigest(report, ref, supplied[ref]))
    && attestation.Some? && AttestationConsistent(report, attestation.value, sorted)
    && (forall f :: f in report.findings ==> FindingHolds(f, sorted))
    && FullyCovered(report.findings, attestation, sorted)
    && Established(report.findings, sorted)
    && !Abstains(report.findings, supplied, false)
  }

  // ----- what the upgrade means

  /** The corpus was supplied within bounds, and both signed lists of it are about these very leaves. */
  ghost predicate Vouched(report: Report, attestation: Attestation, supplied: Lists, ref: Ref) {
    && ref in supplied && |supplied[ref]| <= MAX_LEAF_LIST
    && (exists d :: d in report.digests && d.ref == ref && d.leafCount == |supplied[ref]|
                    && d.digest == LeafListDigest(Sort(supplied[ref], LexLeq)))
    && (exists c :: c in attestation.corpora && c.ref == ref && c.leafCount == |supplied[ref]|
                    && c.root == LeafListDigest(Sort(supplied[ref], LexLeq)) && c.blind == attestation.blind)
  }

  lemma RelevantIsVouched(report: Report, attestation: Attestation, supplied: Lists, ref: Ref)
    requires Ds3Verified(report, Some(attestation), supplied) && IsRelevantRef(report.findings, ref)
    ensures Vouched(report, attestation, supplied, ref)
  {
    hide Established, FindingHolds, IsRelevantRef;
    assert ref in SortedOf(supplied) && IsAttested(Some(attestation), ref);
    var leaves := Sort(supplied[ref], LexLeq);
    assert |leaves| == |multiset(leaves)| == |supplied[ref]|;
    assert MatchesDigest(report, ref, supplied[ref]);
    ByRefIsListed(report.digests, ref);
    var c :| c in attestation.corpora && c.ref == ref;
    assert AttestedMatches(c, SortedOf(supplied));
  }

  lemma SortKeepsTokens(s: seq<Text>)
    ensures Tokens(Sort(s, LexLeq)) == Tokens(s)
  {
    forall x ensures x in Sort(s, LexLeq) <==> x in s {
      assert x in multiset(Sort(s, LexLeq)) <==> x in multiset(s);
    }
  }

  /**
   DS3 verified means: there is a corpus pair to speak of, and for every overlap or disjointness
   finding both corpora were supplied, digest-checked and attested under the common blind, their
   token lists share nothing, and the finding reports an overlap of zero.
   */
  lemma Ds3VerifiedMeans(report: Report, attestation: Attestation, supplied: Lists)
    requires Ds3Verified(report, Some(attestation), supplied)
    ensures exists f :: f in report.findings && IsRelevant(f)
    ensures forall f :: f in report.findings && IsRelevant(f) ==>
              && Vouched(report, attestation, supplied, f.a) && Vouched(report, attestation, supplied, f.b)
              && Common(supplied, f.a, f.b) == {} && f.overlapCount == 0
  {
    var p :| NamedBy(report.findings, p);
    forall f | f in report.findings && IsRelevant(f)
      ensures Vouched(report, attestation, supplied, f.a) && Vouched(report, attestation, supplied, f.b)
      ensures Common(supplied, f.a, f.b) == {} && f.overlapCount == 0
    {
      RelevantFinding(report, attestation, supplied, f);
    }
  }

  lemma RelevantFinding(report: Report, attestation: Attestation, supplied: Lists, f: Finding)
    requires Ds3Verified(report, Some(attestation), supplied) && f in report.findings && IsRelevant(f)
    ensures Vouched(report, attestation, supplied, f.a) && Vouched(report, attestation, supplied, f.b)
    ensures Common(supplied, f.a, f.b) == {} && f.overlapCount == 0
  {
    assert IsRelevantRef(report.findings, f.a) && IsRelevantRef(report.findings, f.b);
    RelevantIsVouched(report, attestation, supplied, f.a);
    RelevantIsVouched(report, attestation, supplied, f.b);
    SortKeepsTokens(supplied[f.a]);
    SortKeepsTokens(supplied[f.b]);
    hide AttestationConsistent, Vouched, MatchesDigest, Sort;
    assert NamedBy(report.findings, PairOf(f));
    assert PairEstablished(report.findings, SortedOf(supplied), PairOf(f));
    assert FindingHolds(f, SortedOf(supplied));
    assert Common(SortedOf(supplied), f.a, f.b) == {};
  }

  // ----- the upgrade in terms of what was supplied and signed

  /** The last entry the report declares for this corpus is true of its list. */
  ghost predicate DeclaresList(digests: seq<Declared>, ref: Ref, leaves: seq<Text>) {
    exists i :: 0 <= i < |digests| && digests[i].ref == ref && TrueOfList(digests[i].leafCount, digests[i].digest, leaves)
                && forall j :: i < j < |digests| ==> digests[j].ref != ref
  }

  ghost predicate TrueOfList(count: int, d: Digest, leaves: seq<Text>) {
    count == |leaves| && d.LeafListDigest? && IsSortedListing(d.leaves, leaves)
  }

  lemma {:induction false} LastDeclaredWins(digests: seq<Declared>, ref: Ref, d: Declared)
    ensures ref in ByRef(digests) && ByRef(digests)[ref] == d <==>
            exists i :: 0 <= i < |digests| && digests[i] == d && d.ref == ref
                        && forall j :: i < j < |digests| ==> digests[j].ref != ref
    decreases |digests|
  {
    if digests != [] {
      var n := |digests| - 1;
      LastDeclaredWins(digests[..n], ref, d);
      if digests[n].ref != ref {
        if i :| 0 <= i < n && digests[..n][i] == d && d.ref == ref && forall j :: i < j < n ==> digests[..n][j].ref != ref {
          forall j | i < j < |digests| ensures digests[j].ref != ref {
            assert j < n ==> digests[..n][j] == digests[j];
          }
        }
      }
    }
  }

  lemma DigestIsTrueIff(count: int, d: Digest, leaves: seq<Text>)
    ensures TrueOfList(count, d, leaves) <==> count == |leaves| && LeafListDigest(Sort(leaves, LexLeq)) == d
  {
    hide IsSortedListing, Sort;
    if d.LeafListDigest? {
      SortedListingIsSort(d.leaves, leaves);
    }
  }

  lemma MatchesDigestIff(report: Report, ref: Ref, leaves: seq<Text>)
    ensures MatchesDigest(report, ref, leaves) <==> DeclaresList(report.digests, ref, leaves)
  {
    hide ByRef, Sort, TrueOfList;
    var declared := ByRef(report.digests);
    if ref in declared {
      var d := declared[ref];
      LastDeclaredWins(report.digests, ref, d);
      DigestIsTrueIff(d.leafCount, d.digest, leaves);
    }
    if i :| 0 <= i < |report.digests| && report.digests[i].ref == ref
            && TrueOfList(report.digests[i].leafCount, report.digests[i].digest, leaves)
            && forall j :: i < j < |report.digests| ==> report.digests[j].ref != ref {
      LastDeclaredWins(report.digests, ref, report.digests[i]);
      DigestIsTrueIff(report.digests[i].leafCount, report.digests[i].digest, leaves);
    }
  }

  /** Manifest, report and attestation carry one digest, and it covers everything attested. */
  ghost predicate Signed(report: Report, a: Attestation) {
    && report.manifestDigest == Some(a.digest) && report.attestationDigest == Some(a.digest)
    && a.digest.corpora == a.corpora && a.digest.blind == a.blind && a.digest.scope == a.scope && a.digest.rest == a.rest
  }

  lemma SignedIffBound(report: Report, a: Attestation)
    ensures DigestsBind(report, a) <==> Signed(report, a)
  {
  }

  /** Two findings speak of the same two corpora, either way round. */
  predicate SamePair(f: Finding, g: Finding) {
    (f.a == g.a && f.b == g.b) || (f.a == g.b && f.b == g.a)
  }

  lemma PairIsUnordered(f: Finding, g: Finding)
    ensures PairOf(f) == PairOf(g) <==> SamePair(f, g)
    ensures PairOf(f) in {Pair(f.a, f.b), Pair(f.b, f.a)}
  {
    hide LexLeq;
    LexTotal(f.a, f.b);
    LexTotal(g.a, g.b);
    if LexLeq(f.a, f.b) && LexLeq(f.b, f.a) {
      LexAntisymmetric(f.a, f.b);
    }
  }

  /** The corpus was supplied within bounds and is attested. */
  ghost predicate SuppliedAndAttested(a: Attestation, supplied: Lists, ref: Ref) {
    ref in supplied && |supplied[ref]| <= 65_536 && exists c :: c in a.corpora && c.ref == ref
  }

  /** What one overlap or disjointness finding must be backed by. */
  ghost predicate Backed(findings: seq<Finding>, a: Attestation, supplied: Lists, f: Finding) {
    && SuppliedAndAttested(a, supplied, f.a) && SuppliedAndAttested(a, supplied, f.b)
    && (forall t :: !(t in supplied[f.a] && t in supplied[f.b])) && f.overlapCount == 0
    && exists g :: g in findings && !g.kind.OtherKind? && SamePair(f, g) && g.asserted
  }

  /** Everything supplied and signed is true, and the claim rests on it alone. */
  ghost predicate IsClean(report: Report, a: Attestation, supplied: Lists) {
    && (forall ref :: ref in supplied ==> DeclaresList(report.digests, ref, supplied[ref]))
    && Signed(report, a) && a.scope == report.scope
    && (forall c :: c in a.corpora ==> c.blind == a.blind)
    && (forall c :: c in a.corpora && c.ref in supplied ==> TrueOfList(c.leafCount, c.root, supplied[c.ref]))
    && (exists f :: f in report.findings && !f.kind.OtherKind?)
    && forall f :: f in report.findings && !f.kind.OtherKind? ==> Backed(report.findings, a, supplied, f)
  }

  /** DS3 is issuer-verified exactly for clean reports. */
  lemma Ds3VerifiedIff(report: Report, a: Attestation, supplied: Lists)
    ensures Ds3Verified(report, Some(a), supplied) <==> IsClean(report, a, supplied)
  {
    hide MatchesDigest, DeclaresList, FindingHolds, AttestationConsistent, FullyCovered, Established, Abstains, Backed, Signed,
      TrueOfList;
    forall ref | ref in supplied ensures MatchesDigest(report, ref, supplied[ref]) <==> DeclaresList(report.digests, ref, supplied[ref]) {
      MatchesDigestIff(report, ref, supplied[ref]);
    }
    AttestationIff(report, a, supplied);
    if Ds3Verified(report, Some(a), supplied) {
      VerifiedIsBacked(report, a, supplied);
    }
    if IsClean(report, a, supplied) {
      BackedIsVerified(report, a, supplied);
    }
  }

  lemma AttestationIff(report: Report, a: Attestation, supplied: Lists)
    ensures AttestationConsistent(report, a, SortedOf(supplied)) <==>
            && Signed(report, a) && a.scope == report.scope
            && (forall c :: c in a.corpora ==> c.blind == a.blind)
            && (forall c :: c in a.corpora && c.ref in supplied ==> TrueOfList(c.leafCount, c.root, supplied[c.ref]))
  {
    hide Signed, DigestsBind, TrueOfList, Sort;
    SignedIffBound(report, a);
    forall c | c in a.corpora ensures AttestedMatches(c, SortedOf(supplied)) <==>
                                      (c.ref in supplied ==> TrueOfList(c.leafCount, c.root, supplied[c.ref])) {
      if c.ref in supplied {
        DigestIsTrueIff(c.leafCount, c.root, supplied[c.ref]);
        SameCount(supplied[c.ref]);
      }
    }
  }

  lemma SameCount(s: seq<Text>)
    ensures |Sort(s, LexLeq)| == |s|
  {
    assert |multiset(Sort(s, LexLeq))| == |multiset(s)|;
  }

  lemma SharedToken(supplied: Lists, x: Ref, y: Ref, t: Text)
    requires x in supplied && y in supplied
    ensures t in Common(SortedOf(supplied), x, y) <==> t in supplied[x] && t in supplied[y]
  {
    SortKeepsTokens(supplied[x]);
    SortKeepsTokens(supplied[y]);
    hide Sort;
    assert t in Tokens(supplied[x]) <==> t in supplied[x];
    assert t in Tokens(supplied[y]) <==> t in supplied[y];
  }

  /** The same tokens are shared, sorted or not. */
  lemma CommonOfSorted(supplied: Lists, x: Ref, y: Ref)
    requires x in supplied && y in supplied
    ensures Common(SortedOf(supplied), x, y) == {} <==> forall t :: !(t in supplied[x] && t in supplied[y])
  {
    hide Sort, Common;
    forall t ensures t in Common(SortedOf(supplied), x, y) <==> t in supplied[x] && t in supplied[y] {
      SharedToken(supplied, x, y, t);
    }
  }

  lemma VerifiedIsBacked(report: Report, a: Attestation, supplied: Lists)
    requires Ds3Verified(report, Some(a), supplied)
    ensures exists f :: f in report.findings && !f.kind.OtherKind?
    ensures forall f :: f in report.findings && !f.kind.OtherKind? ==> Backed(report.findings, a, supplied, f)
  {
    hide MatchesDigest, FindingHolds, AttestationConsistent, Backed;
    var p :| NamedBy(report.findings, p);
    forall f | f in report.findings && !f.kind.OtherKind? ensures Backed(report.findings, a, supplied, f) {
      FindingIsBacked(report, a, supplied, f);
    }
  }

  lemma FindingIsBacked(report: Report, a: Attestation, supplied: Lists, f: Finding)
    requires Ds3Verified(report, Some(a), supplied) && f in report.findings && !f.kind.OtherKind?
    ensures Backed(report.findings, a, supplied, f)
  {
    hide Ds3Verified, Vouched, SuppliedAndAttested, SamePair, Backed;
    RelevantFinding(report, a, supplied, f);
    var g := AssertedLikewise(report, a, supplied, f);
    assert IsRelevantRef(report.findings, f.a) && IsRelevantRef(report.findings, f.b);
    BothSupplied(report, a, supplied, f.a);
    BothSupplied(report, a, supplied, f.b);
    BackedBy(report.findings, a, supplied, f, g);
  }

  lemma BackedBy(findings: seq<Finding>, a: Attestation, supplied: Lists, f: Finding, g: Finding)
    requires SuppliedAndAttested(a, supplied, f.a) && SuppliedAndAttested(a, supplied, f.b)
    requires Common(supplied, f.a, f.b) == {} && f.overlapCount == 0
    requires g in findings && !g.kind.OtherKind? && SamePair(f, g) && g.asserted
    ensures Backed(findings, a, supplied, f)
  {
    hide SamePair;
    NothingShared(supplied, f);
  }

  lemma AssertedLikewise(report: Report, a: Attestation, supplied: Lists, f: Finding) returns (g: Finding)
    requires Ds3Verified(report, Some(a), supplied) && f in report.findings && !f.kind.OtherKind?
    ensures g in report.findings && !g.kind.OtherKind? && SamePair(f, g) && g.asserted
  {
    hide MatchesDigest, AttestationConsistent, FindingHolds, FullyCovered, Abstains, SortedOf, PairOf, SamePair;
    assert NamedBy(report.findings, PairOf(f));
    assert PairEstablished(report.findings, SortedOf(supplied), PairOf(f));
    g :| g in report.findings && IsRelevant(g) && PairOf(g) == PairOf(f) && g.asserted;
    PairIsUnordered(f, g);
  }

  lemma BothSupplied(report: Report, a: Attestation, supplied: Lists, ref: Ref)
    requires Ds3Verified(report, Some(a), supplied) && IsRelevantRef(report.findings, ref)
    ensures SuppliedAndAttested(a, supplied, ref)
  {
    hide MatchesDigest, AttestationConsistent, FindingHolds, Established, IsRelevantRef;
    assert ref in SortedOf(supplied);
  }

  lemma NothingShared(supplied: Lists, f: Finding)
    requires f.a in supplied && f.b in supplied
    ensures Common(supplied, f.a, f.b) == {} <==> forall t :: !(t in supplied[f.a] && t in supplied[f.b])
  {
    if forall t :: !(t in supplied[f.a] && t in supplied[f.b]) {
      forall t ensures t !in Common(supplied, f.a, f.b) {}
    } else {
      var t :| t in supplied[f.a] && t in supplied[f.b];
      assert t in Common(supplied, f.a, f.b);
    }
  }

  lemma BackedIsVerified(report: Report, a: Attestation, supplied: Lists)
    requires IsClean(report, a, supplied)
    ensures forall f :: f in report.findings ==> FindingHolds(f, SortedOf(supplied))
    ensures FullyCovered(report.findings, Some(a), SortedOf(supplied))
    ensures Established(report.findings, SortedOf(supplied))
    ensures !Abstains(report.findings, supplied, false)
  {
    hide DeclaresList, Signed, TrueOfList, FindingHolds, Established, PairEstablished, SortedOf, SamePair;
    var first :| first in report.findings && !first.kind.OtherKind?;
    forall f | f in report.findings ensures FindingHolds(f, SortedOf(supplied)) {
      BackedHolds(report.findings, a, supplied, f);
    }
    CleanIsCovered(report, a, supplied);
    CleanIsEstablished(report, a, supplied);
  }

  lemma BackedHolds(findings: seq<Finding>, a: Attestation, supplied: Lists, f: Finding)
    requires !f.kind.OtherKind? ==> Backed(findings, a, supplied, f)
    ensures FindingHolds(f, SortedOf(supplied))
  {
    if !f.kind.OtherKind? {
      CommonOfSorted(supplied, f.a, f.b);
    }
  }

  lemma CleanIsCovered(report: Report, a: Attestation, supplied: Lists)
    requires IsClean(report, a, supplied)
    ensures FullyCovered(report.findings, Some(a), SortedOf(supplied)) && !Abstains(report.findings, supplied, false)
  {
    hide IsClean, IsRelevantRef, Sort;
    forall ref | IsRelevantRef(report.findings, ref) ensures SuppliedAndAttested(a, supplied, ref) {
      RefIsBacked(report, a, supplied, ref);
    }
    SomeRefIsRelevant(report, a, supplied);
  }

  lemma RefIsBacked(report: Report, a: Attestation, supplied: Lists, ref: Ref)
    requires IsClean(report, a, supplied) && IsRelevantRef(report.findings, ref)
    ensures SuppliedAndAttested(a, supplied, ref)
  {
    hide DeclaresList, Signed, TrueOfList, Backed;
    var f :| f in report.findings && IsRelevant(f) && (f.a == ref || f.b == ref);
    assert Backed(report.findings, a, supplied, f);
    BackedOnBothSides(report.findings, a, supplied, f);
  }

  lemma BackedOnBothSides(findings: seq<Finding>, a: Attestation, supplied: Lists, f: Finding)
    requires Backed(findings, a, supplied, f)
    ensures SuppliedAndAttested(a, supplied, f.a) && SuppliedAndAttested(a, supplied, f.b)
  {
    hide SamePair;
  }

  lemma SomeRefIsRelevant(report: Report, a: Attestation, supplied: Lists)
    requires IsClean(report, a, supplied)
    ensures exists ref :: IsRelevantRef(report.findings, ref)
  {
    hide DeclaresList, Signed, TrueOfList, Backed;
    var f :| f in report.findings && !f.kind.OtherKind?;
    assert IsRelevantRef(report.findings, f.a);
  }

  lemma CleanIsEstablished(report: Report, a: Attestation, supplied: Lists)
    requires IsClean(report, a, supplied)
    ensures Established(report.findings, SortedOf(supplied))
  {
    hide DeclaresList, Signed, TrueOfList, Backed, PairOf, SortedOf, PairEstablished;
    var first :| first in report.findings && !first.kind.OtherKind?;
    assert NamedBy(report.findings, PairOf(first));
    forall p | NamedBy(report.findings, p) ensures PairEstablished(report.findings, SortedOf(supplied), p) {
      var f :| f in report.findings && IsRelevant(f) && PairOf(f) == p;
      assert Backed(report.findings, a, supplied, f);
      BackedIsEstablished(report.findings, a, supplied, f);
    }
  }

  lemma BackedIsEstablished(findings: seq<Finding>, a: Attestation, supplied: Lists, f: Finding)
    requires Backed(findings, a, supplied, f)
    ensures PairEstablished(findings, SortedOf(supplied), PairOf(f))
  {
    hide SamePair, PairOf, Common;
    var g :| g in findings && !g.kind.OtherKind? && SamePair(f, g) && g.asserted;
    PairIsUnordered(f, g);
    PairIsUnordered(f, f);
    CommonOfSorted(supplied, f.a, f.b);
    CommonOfSorted(supplied, f.b, f.a);
  }

  /** One report binds at most one attestation: the digest covers everything attested. */
  lemma OneAttestationBinds(report: Report, a: Attestation, b: Attestation)
    requires DigestsBind(report, a) && DigestsBind(report, b)
    ensures a == b
  {
  }

  /** No two different attestations bring one report to the upgrade, whatever lists are supplied with them. */
  lemma UpgradingAttestationIsUnique(report: Report, a: Attestation, suppliedA: Lists, b: Attestation, suppliedB: Lists)
    requires Ds3Verified(report, Some(a), suppliedA) && Ds3Verified(report, Some(b), suppliedB)
    ensures a == b
  {
    OneAttestationBinds(report, a, b);
  }

  /** The signed digests pin the lists: two suppliers who both reach the upgrade supplied the same tokens. */
  lemma Ds3ListsAreUnique(report: Report, attestation: Attestation, a: Lists, b: Lists, ref: Ref)
    requires Ds3Verified(report, Some(attestation), a) && Ds3Verified(report, Some(attestation), b)
    requires IsRelevantRef(report.findings, ref)
    ensures ref in a && ref in b && multiset(a[ref]) == multiset(b[ref])
  {
    RelevantIsVouched(report, attestation, a, ref);
    RelevantIsVouched(report, attestation, b, ref);
    assert MatchesDigest(report, ref, a[ref]) && MatchesDigest(report, ref, b[ref]);
    hide Ds3Verified, Vouched;
    assert multiset(Sort(a[ref], LexLeq)) == multiset(Sort(b[ref], LexLeq));
  }
}
