/** `Linter._class_problems` of `scripts/content_class_lint.py`. */
module ClassClaims {
  // Why a content-class claim does not hold for every value a schema node accepts.  Reference
  // resolution, the dialect test and the check of a node's own value keywords
  // (`semantic_problem`) are parameters.

  import opened Outcomes
  import opened Sorting
  import opened JsonSchema

  const MAX_COMPOSITION_DEPTH: nat := 12

  datatype ListSlot = AnyOfSlot | OneOfSlot | AllOfSlot

  /** hasValueKeys: the node has type, enum, const, pattern or format; typeIsNull: `type` is exactly "null". */
  datatype Node =
    | BoolNode(b: bool)
    | OddNode
    | ObjectNode(
        ref: Option<Text>,
        typeIsNull: bool,
        isLegacy: bool,
        hasValueKeys: bool,
        keywords: Text,
        anyOf: Option<seq<Node>>,
        oneOf: Option<seq<Node>>,
        allOf: Option<seq<Node>>)

  /** The document a node was found in and the scope its refs resolve in. */
  datatype Place = Place(doc: Text, scope: seq<Text>)

  datatype World = World(
    resolve: (Place, Text) -> Option<(Place, Node)>,
    modern: Text -> bool,
    semanticProblem: (Text, Node, Text) -> Option<Text>,
    acceptsKeywords: (Node, Instance) -> bool,
    inClass: (Text, Instance) -> bool)

  datatype Why = Unresolvable(ref: Text) | TooDeep | LegacyBranch | Unconstrained | Semantic(why: Text)

  /** A reason, with the branches that lead to it. */
  datatype Reason = Reason(path: seq<(ListSlot, nat)>, why: Why)

  // ----- what the claim means

  /**
   What a node's keywords demand of an accepted value.  Outside the modern dialects a `$ref`
   hides its siblings.  Keywords not read here can only demand more.
   */
  ghost predicate Demands(w: World, valid: (Place, Node, Instance) -> bool, place: Place, node: Node, v: Instance) {
    match node
    case BoolNode(b) => b
    case OddNode => true
    case ObjectNode(_, _, _, _, _, _, _, _) =>
      var target := if node.ref.Some? then w.resolve(place, node.ref.value) else None;
      && (target.Some? ==> valid(target.value.0, target.value.1, v))
      && (node.ref.None? || w.modern(place.doc) ==>
            && (node.typeIsNull ==> v == Null)
            && (node.hasValueKeys ==> w.acceptsKeywords(node, v))
            && (node.anyOf.Some? ==> exists i :: 0 <= i < |node.anyOf.value| && valid(place, node.anyOf.value[i], v))
            && (node.oneOf.Some? ==> exists i :: 0 <= i < |node.oneOf.value| && valid(place, node.oneOf.value[i], v))
            && (node.allOf.Some? ==> forall i :: 0 <= i < |node.allOf.value| ==> valid(place, node.allOf.value[i], v)))
  }

  /** valid accepts only what the keywords allow; references may be recursive. */
  ghost predicate Respects(w: World, valid: (Place, Node, Instance) -> bool) {
    forall place, node, v :: valid(place, node, v) ==> Demands(w, valid, place, node, v)
  }

  ghost predicate InClaim(w: World, cls: Text, v: Instance) {
    v == Null || w.inClass(cls, v)
  }

  /** The check of a node's own keywords keeps its promise. */
  ghost predicate SoundLeafCheck(w: World) {
    forall cls, node, doc, v ::
      w.semanticProblem(cls, node, doc) == None && w.acceptsKeywords(node, v) ==> InClaim(w, cls, v)
  }

  // ----- the reasons

  function Prefixed(slot: ListSlot, i: nat, reasons: seq<Reason>): seq<Reason> {
    seq(|reasons|, k requires 0 <= k < |reasons| => Reason([(slot, i)] + reasons[k].path, reasons[k].why))
  }

  function Room(depth: nat): nat {
    if depth <= MAX_COMPOSITION_DEPTH then MAX_COMPOSITION_DEPTH + 1 - depth else 0
  }

  predicate IsHiddenByRef(w: World, node: Node, place: Place) {
    node.ObjectNode? && node.ref.Some? && !w.modern(place.doc)
  }

  /** Reasons of the first n alternatives, each with its position. */
  function BranchReasons(w: World, cls: Text, slot: ListSlot, branches: seq<Node>, n: nat, place: Place, depth: nat): seq<Reason>
    requires n <= |branches| && depth <= MAX_COMPOSITION_DEPTH
    decreases Room(depth), 0, n
  {
    if n == 0 then []
    else
      BranchReasons(w, cls, slot, branches, n - 1, place, depth)
      + Prefixed(slot, n - 1, Problems(w, cls, branches[n - 1], place, false, depth + 1))
  }

  /** Each member of `allOf` is a conjunct of its own. */
  function MemberConjuncts(w: World, cls: Text, members: seq<Node>, n: nat, place: Place, depth: nat): seq<seq<Reason>>
    requires n <= |members| && depth <= MAX_COMPOSITION_DEPTH
    decreases Room(depth), 0, n
  {
    if n == 0 then []
    else
      MemberConjuncts(w, cls, members, n - 1, place, depth)
      + [Prefixed(AllOfSlot, n - 1, Problems(w, cls, members[n - 1], place, false, depth + 1))]
  }

  function RefConjuncts(w: World, cls: Text, node: Node, place: Place, depth: nat): seq<seq<Reason>>
    requires node.ObjectNode? && depth <= MAX_COMPOSITION_DEPTH
    decreases Room(depth), 1, 0
  {
    if node.ref.None? then []
    else
      var target := w.resolve(place, node.ref.value);
      if target.None? || !target.value.1.ObjectNode? then [[Reason([], Unresolvable(node.ref.value))]]
      else [Problems(w, cls, target.value.1, target.value.0, false, depth + 1)]
  }

  function ValueConjuncts(w: World, cls: Text, node: Node, place: Place): seq<seq<Reason>>
    requires node.ObjectNode?
  {
    if !node.hasValueKeys then []
    else
      var why := w.semanticProblem(cls, node, place.doc);
      [if why.Some? then [Reason([], Semantic(why.value))] else []]
  }

  function AlternativeConjuncts(w: World, cls: Text, slot: ListSlot, branches: Option<seq<Node>>, place: Place, depth: nat): seq<seq<Reason>>
    requires depth <= MAX_COMPOSITION_DEPTH
    decreases Room(depth), 1, 0
  {
    if branches.None? then [] else [BranchReasons(w, cls, slot, branches.value, |branches.value|, place, depth)]
  }

  function AllConjuncts(w: World, cls: Text, node: Node, place: Place, depth: nat): seq<seq<Reason>>
    requires node.ObjectNode? && depth <= MAX_COMPOSITION_DEPTH
    decreases Room(depth), 2, 0
  {
    RefConjuncts(w, cls, node, place, depth)
    + ValueConjuncts(w, cls, node, place)
    + AlternativeConjuncts(w, cls, AnyOfSlot, node.anyOf, place, depth)
    + AlternativeConjuncts(w, cls, OneOfSlot, node.oneOf, place, depth)
    + (if node.allOf.Some? then MemberConjuncts(w, cls, node.allOf.value, |node.allOf.value|, place, depth) else [])
  }

  function Flattened(conjuncts: seq<seq<Reason>>): seq<Reason> {
    if conjuncts == [] then [] else Flattened(conjuncts[..|conjuncts| - 1]) + conjuncts[|conjuncts| - 1]
  }

  /** One satisfied conjunct is enough; no conjunct at all accepts anything. */
  function Combined(conjuncts: seq<seq<Reason>>): seq<Reason> {
    if conjuncts == [] then [Reason([], Unconstrained)]
    else if [] in conjuncts then []
    else Flattened(conjuncts)
  }

  /** Why the claim does not hold for the node; [] when it does. */
  function Problems(w: World, cls: Text, node: Node, place: Place, root: bool, depth: nat): seq<Reason>
    decreases Room(depth), 3, 0
  {
    if IsHiddenByRef(w, node, place) then
      var target := w.resolve(place, node.ref.value);
      if target.None? || !target.value.1.ObjectNode? then [Reason([], Unresolvable(node.ref.value))]
      else if depth > MAX_COMPOSITION_DEPTH then [Reason([], TooDeep)]
      else if !root && node.isLegacy then [Reason([], LegacyBranch)]
      else Problems(w, cls, target.value.1, target.value.0, false, depth + 1)
    else if node == BoolNode(false) || (node.ObjectNode? && node.typeIsNull) then []
    else if !node.ObjectNode? then [Reason([], Unconstrained)]
    else if depth > MAX_COMPOSITION_DEPTH then [Reason([], TooDeep)]
    else if !root && node.isLegacy then [Reason([], LegacyBranch)]
    else Combined(AllConjuncts(w, cls, node, place, depth))
  }

  // ----- the checker

  /** `_class_problems`, loops over branches and conjuncts included. */
  method ClassProblems(w: World, cls: Text, node: Node, place: Place, root: bool, depth: nat) returns (r: seq<Reason>)
    ensures r == Problems(w, cls, node, place, root, depth)
    decreases Room(depth), 2
  {
    if node.ObjectNode? && node.ref.Some? && !w.modern(place.doc) {
      var target := w.resolve(place, node.ref.value);
      if target.None? || !target.value.1.ObjectNode? {
        return [Reason([], Unresolvable(node.ref.value))];
      }
      if depth > MAX_COMPOSITION_DEPTH {
        return [Reason([], TooDeep)];
      }
      if !root && node.isLegacy {
        return [Reason([], LegacyBranch)];
      }
      r := ClassProblems(w, cls, target.value.1, target.value.0, false, depth + 1);
      return;
    }
    if node == BoolNode(false) || (node.ObjectNode? && node.typeIsNull) {
      return [];
    }
    if !node.ObjectNode? {
      return [Reason([], Unconstrained)];
    }
    if depth > MAX_COMPOSITION_DEPTH {
      return [Reason([], TooDeep)];
    }
    if !root && node.isLegacy {
      return [Reason([], LegacyBranch)];
    }
    var conjuncts := CollectConjuncts(w, cls, node, place, depth);
    r := CombineConjuncts(conjuncts);
  }

  method CollectConjuncts(w: World, cls: Text, node: Node, place: Place, depth: nat) returns (conjuncts: seq<seq<Reason>>)
    requires node.ObjectNode? && depth <= MAX_COMPOSITION_DEPTH
    ensures conjuncts == AllConjuncts(w, cls, node, place, depth)
    decreases Room(depth), 1
  {
    hide Problems, BranchReasons, MemberConjuncts;
    conjuncts := [];
    if node.ref.Some? {
      var target := w.resolve(place, node.ref.value);
      if target.None? || !target.value.1.ObjectNode? {
        conjuncts := conjuncts + [[Reason([], Unresolvable(node.ref.value))]];
      } else {
        var there := ClassProblems(w, cls, target.value.1, target.value.0, false, depth + 1);
        conjuncts := conjuncts + [there];
      }
    }
    assert conjuncts == RefConjuncts(w, cls, node, place, depth);
    ghost var last := conjuncts;
    if node.hasValueKeys {
      var why := w.semanticProblem(cls, node, place.doc);
      conjuncts := conjuncts + [if why.Some? then [Reason([], Semantic(why.value))] else []];
    }
    assert conjuncts == last + ValueConjuncts(w, cls, node, place);
    last := conjuncts;
    if node.anyOf.Some? {
      var reasons := CollectBranches(w, cls, AnyOfSlot, node.anyOf.value, place, depth);
      conjuncts := conjuncts + [reasons];
    }
    assert conjuncts == last + AlternativeConjuncts(w, cls, AnyOfSlot, node.anyOf, place, depth);
    last := conjuncts;
    if node.oneOf.Some? {
      var reasons := CollectBranches(w, cls, OneOfSlot, node.oneOf.value, place, depth);
      conjuncts := conjuncts + [reasons];
    }
    assert conjuncts == last + AlternativeConjuncts(w, cls, OneOfSlot, node.oneOf, place, depth);
    if node.allOf.Some? {
      var members := CollectMembers(w, cls, node.allOf.value, place, depth);
      conjuncts := conjuncts + members;
    }
  }

  method CollectBranches(w: World, cls: Text, slot: ListSlot, branches: seq<Node>, place: Place, depth: nat) returns (problems: seq<Reason>)
    requires depth <= MAX_COMPOSITION_DEPTH
    ensures problems == BranchReasons(w, cls, slot, branches, |branches|, place, depth)
    decreases Room(depth), 0
  {
    problems := [];
    for i := 0 to |branches|
      invariant problems == BranchReasons(w, cls, slot, branches, i, place, depth)
    {
      var reasons := ClassProblems(w, cls, branches[i], place, false, depth + 1);
      problems := problems + Prefixed(slot, i, reasons);
    }
  }

  method CollectMembers(w: World, cls: Text, members: seq<Node>, place: Place, depth: nat) returns (conjuncts: seq<seq<Reason>>)
    requires depth <= MAX_COMPOSITION_DEPTH
    ensures conjuncts == MemberConjuncts(w, cls, members, |members|, place, depth)
    decreases Room(depth), 0
  {
    conjuncts := [];
    for i := 0 to |members|
      invariant conjuncts == MemberConjuncts(w, cls, members, i, place, depth)
    {
      var reasons := ClassProblems(w, cls, members[i], place, false, depth + 1);
      conjuncts := conjuncts + [Prefixed(AllOfSlot, i, reasons)];
    }
  }

  method CombineConjuncts(conjuncts: seq<seq<Reason>>) returns (r: seq<Reason>)
    ensures r == Combined(conjuncts)
  {
    if conjuncts == [] {
      return [Reason([], Unconstrained)];
    }
    r := [];
    for i := 0 to |conjuncts|
      invariant r == Flattened(conjuncts[..i])
      invariant [] !in conjuncts[..i]
    {
      assert conjuncts[..i + 1][..i] == conjuncts[..i];
      if conjuncts[i] == [] {
        return [];
      }
      r := r + conjuncts[i];
    }
    assert conjuncts[..|conjuncts|] == conjuncts;
  }

  // ----- soundness

  lemma {:induction false} QuietBranch(w: World, cls: Text, slot: ListSlot, branches: seq<Node>, n: nat, i: nat, place: Place, depth: nat)
    requires i < n <= |branches| && depth <= MAX_COMPOSITION_DEPTH
    requires BranchReasons(w, cls, slot, branches, n, place, depth) == []
    ensures Problems(w, cls, branches[i], place, false, depth + 1) == []
    decreases n
  {
    hide Problems;
    var last := Problems(w, cls, branches[n - 1], place, false, depth + 1);
    assert |Prefixed(slot, n - 1, last)| == |last|;
    if i < n - 1 {
      QuietBranch(w, cls, slot, branches, n - 1, i, place, depth);
    }
  }

  lemma {:induction false} QuietMember(w: World, cls: Text, members: seq<Node>, n: nat, place: Place, depth: nat) returns (i: nat)
    requires n <= |members| && depth <= MAX_COMPOSITION_DEPTH
    requires [] in MemberConjuncts(w, cls, members, n, place, depth)
    ensures i < n && Problems(w, cls, members[i], place, false, depth + 1) == []
    decreases n
  {
    hide Problems;
    var last := Problems(w, cls, members[n - 1], place, false, depth + 1);
    assert |Prefixed(AllOfSlot, n - 1, last)| == |last|;
    if last == [] {
      i := n - 1;
    } else {
      i := QuietMember(w, cls, members, n - 1, place, depth);
    }
  }

  lemma {:induction false} FlattenedIsLoud(conjuncts: seq<seq<Reason>>)
    requires conjuncts != [] && [] !in conjuncts
    ensures Flattened(conjuncts) != []
  {
    assert conjuncts[|conjuncts| - 1] in conjuncts;
  }

  /** A node without reasons has a conjunct without reasons. */
  lemma SatisfiedConjunct(conjuncts: seq<seq<Reason>>)
    ensures Combined(conjuncts) == [] <==> [] in conjuncts
  {
    if conjuncts != [] && [] !in conjuncts {
      FlattenedIsLoud(conjuncts);
    }
  }

  /** When the answer is empty, case by case. */
  lemma EmptyAnswer(w: World, cls: Text, node: Node, place: Place, root: bool, depth: nat)
    ensures IsHiddenByRef(w, node, place) ==>
              var target := w.resolve(place, node.ref.value);
              Problems(w, cls, node, place, root, depth) == [] <==>
              && target.Some? && target.value.1.ObjectNode? && depth <= MAX_COMPOSITION_DEPTH && (root || !node.isLegacy)
              && Problems(w, cls, target.value.1, target.value.0, false, depth + 1) == []
    ensures !IsHiddenByRef(w, node, place) && (node == BoolNode(false) || (node.ObjectNode? && node.typeIsNull)) ==>
              Problems(w, cls, node, place, root, depth) == []
    ensures !IsHiddenByRef(w, node, place) && node != BoolNode(false) && !(node.ObjectNode? && node.typeIsNull) ==>
              (Problems(w, cls, node, place, root, depth) == [] <==>
               && node.ObjectNode? && depth <= MAX_COMPOSITION_DEPTH && (root || !node.isLegacy)
               && Combined(AllConjuncts(w, cls, node, place, depth)) == [])
  {
    hide AllConjuncts, Combined;
  }

  /** What an empty answer at a schema object rests on. */
  datatype Ground = ByRef | ByKeywords | ByAlternatives(slot: ListSlot) | ByMember(i: nat)

  ghost predicate Grounds(w: World, cls: Text, node: Node, place: Place, depth: nat, g: Ground)
    requires node.ObjectNode? && depth <= MAX_COMPOSITION_DEPTH
  {
    match g
    case ByRef =>
      && node.ref.Some?
      && var target := w.resolve(place, node.ref.value);
         target.Some? && target.value.1.ObjectNode? && Problems(w, cls, target.value.1, target.value.0, false, depth + 1) == []
    case ByKeywords => node.hasValueKeys && w.semanticProblem(cls, node, place.doc) == None
    case ByAlternatives(AnyOfSlot) => node.anyOf.Some? && AllQuiet(w, cls, node.anyOf.value, place, depth)
    case ByAlternatives(OneOfSlot) => node.oneOf.Some? && AllQuiet(w, cls, node.oneOf.value, place, depth)
    case ByAlternatives(AllOfSlot) => false
    case ByMember(i) =>
      node.allOf.Some? && i < |node.allOf.value| && Problems(w, cls, node.allOf.value[i], place, false, depth + 1) == []
  }

  ghost predicate AllQuiet(w: World, cls: Text, branches: seq<Node>, place: Place, depth: nat) {
    forall i :: 0 <= i < |branches| ==> Problems(w, cls, branches[i], place, false, depth + 1) == []
  }

  lemma BranchesQuiet(w: World, cls: Text, slot: ListSlot, branches: seq<Node>, place: Place, depth: nat)
    requires depth <= MAX_COMPOSITION_DEPTH
    ensures BranchReasons(w, cls, slot, branches, |branches|, place, depth) == [] <==> AllQuiet(w, cls, branches, place, depth)
  {
    hide Problems;
    if BranchReasons(w, cls, slot, branches, |branches|, place, depth) == [] {
      forall i | 0 <= i < |branches| ensures Problems(w, cls, branches[i], place, false, depth + 1) == [] {
        QuietBranch(w, cls, slot, branches, |branches|, i, place, depth);
      }
    }
    if AllQuiet(w, cls, branches, place, depth) {
      QuietBranchesAddNothing(w, cls, slot, branches, |branches|, place, depth);
    }
  }

  lemma {:induction false} QuietBranchesAddNothing(w: World, cls: Text, slot: ListSlot, branches: seq<Node>, n: nat, place: Place, depth: nat)
    requires n <= |branches| && depth <= MAX_COMPOSITION_DEPTH && AllQuiet(w, cls, branches, place, depth)
    ensures BranchReasons(w, cls, slot, branches, n, place, depth) == []
    decreases n
  {
    hide Problems;
    if n > 0 {
      QuietBranchesAddNothing(w, cls, slot, branches, n - 1, place, depth);
      assert Problems(w, cls, branches[n - 1], place, false, depth + 1) == [];
    }
  }

  lemma {:induction false} MemberListed(w: World, cls: Text, members: seq<Node>, n: nat, i: nat, place: Place, depth: nat)
    requires i < n <= |members| && depth <= MAX_COMPOSITION_DEPTH
    requires Problems(w, cls, members[i], place, false, depth + 1) == []
    ensures [] in MemberConjuncts(w, cls, members, n, place, depth)
    decreases n
  {
    hide Problems;
    if i < n - 1 {
      MemberListed(w, cls, members, n - 1, i, place, depth);
    } else {
      assert Prefixed(AllOfSlot, i, []) == [];
      assert MemberConjuncts(w, cls, members, n, place, depth)[|MemberConjuncts(w, cls, members, n - 1, place, depth)|] == [];
    }
  }

  /** A schema object with an empty answer has a conjunct that gives it. */
  lemma EmptyHasGround(w: World, cls: Text, node: Node, place: Place, depth: nat) returns (g: Ground)
    requires node.ObjectNode? && depth <= MAX_COMPOSITION_DEPTH
    ensures Combined(AllConjuncts(w, cls, node, place, depth)) == [] ==> Grounds(w, cls, node, place, depth, g)
  {
    hide Problems, BranchReasons, MemberConjuncts;
    g := ByRef;
    SatisfiedConjunct(AllConjuncts(w, cls, node, place, depth));
    if node.anyOf.Some? {
      BranchesQuiet(w, cls, AnyOfSlot, node.anyOf.value, place, depth);
    }
    if node.oneOf.Some? {
      BranchesQuiet(w, cls, OneOfSlot, node.oneOf.value, place, depth);
    }
    if [] in AllConjuncts(w, cls, node, place, depth) {
      if [] in RefConjuncts(w, cls, node, place, depth) {
        g := ByRef;
      } else if [] in ValueConjuncts(w, cls, node, place) {
        g := ByKeywords;
      } else if [] in AlternativeConjuncts(w, cls, AnyOfSlot, node.anyOf, place, depth) {
        g := ByAlternatives(AnyOfSlot);
      } else if [] in AlternativeConjuncts(w, cls, OneOfSlot, node.oneOf, place, depth) {
        g := ByAlternatives(OneOfSlot);
      } else {
        var i := QuietMember(w, cls, node.allOf.value, |node.allOf.value|, place, depth);
        g := ByMember(i);
      }
    }
  }

  lemma GroundMakesEmpty(w: World, cls: Text, node: Node, place: Place, depth: nat, g: Ground)
    requires node.ObjectNode? && depth <= MAX_COMPOSITION_DEPTH && Grounds(w, cls, node, place, depth, g)
    ensures Combined(AllConjuncts(w, cls, node, place, depth)) == []
  {
    hide Problems, BranchReasons, MemberConjuncts;
    SatisfiedConjunct(AllConjuncts(w, cls, node, place, depth));
    match g
    case ByRef => assert RefConjuncts(w, cls, node, place, depth)[0] == [];
    case ByKeywords => assert ValueConjuncts(w, cls, node, place)[0] == [];
    case ByAlternatives(AnyOfSlot) =>
      BranchesQuiet(w, cls, AnyOfSlot, node.anyOf.value, place, depth);
      assert AlternativeConjuncts(w, cls, AnyOfSlot, node.anyOf, place, depth)[0] == [];
    case ByAlternatives(OneOfSlot) =>
      BranchesQuiet(w, cls, OneOfSlot, node.oneOf.value, place, depth);
      assert AlternativeConjuncts(w, cls, OneOfSlot, node.oneOf, place, depth)[0] == [];
    case ByMember(i) =>
      MemberListed(w, cls, node.allOf.value, |node.allOf.value|, i, place, depth);
  }

  // ----- the reasons of a refused claim

  /** A branch's own reason, led to by that branch. */
  predicate Under(slot: ListSlot, i: nat, r: Reason, reasons: seq<Reason>) {
    r.path != [] && r.path[0] == (slot, i) && Reason(r.path[1..], r.why) in reasons
  }

  ghost predicate SomeBranchGives(w: World, cls: Text, slot: ListSlot, branches: seq<Node>, n: nat, place: Place, depth: nat, r: Reason)
    requires n <= |branches|
  {
    exists i :: 0 <= i < n && Under(slot, i, r, Problems(w, cls, branches[i], place, false, depth + 1))
  }

  /** A conjunct of the node gives this reason. */
  ghost predicate Gives(w: World, cls: Text, node: Node, place: Place, depth: nat, g: Ground, r: Reason)
    requires node.ObjectNode?
  {
    match g
    case ByRef =>
      && node.ref.Some?
      && var target := w.resolve(place, node.ref.value);
         if target.Some? && target.value.1.ObjectNode? then r in Problems(w, cls, target.value.1, target.value.0, false, depth + 1)
         else r == Reason([], Unresolvable(node.ref.value))
    case ByKeywords =>
      && node.hasValueKeys && w.semanticProblem(cls, node, place.doc).Some?
      && r == Reason([], Semantic(w.semanticProblem(cls, node, place.doc).value))
    case ByAlternatives(AnyOfSlot) =>
      node.anyOf.Some? && SomeBranchGives(w, cls, AnyOfSlot, node.anyOf.value, |node.anyOf.value|, place, depth, r)
    case ByAlternatives(OneOfSlot) =>
      node.oneOf.Some? && SomeBranchGives(w, cls, OneOfSlot, node.oneOf.value, |node.oneOf.value|, place, depth, r)
    case ByAlternatives(AllOfSlot) => false
    case ByMember(i) =>
      && node.allOf.Some? && i < |node.allOf.value|
      && Under(AllOfSlot, i, r, Problems(w, cls, node.allOf.value[i], place, false, depth + 1))
  }

  lemma PrefixedAre(slot: ListSlot, i: nat, reasons: seq<Reason>, r: Reason)
    ensures r in Prefixed(slot, i, reasons) <==> Under(slot, i, r, reasons)
  {
    var out := Prefixed(slot, i, reasons);
    if r in out {
      var k :| 0 <= k < |out| && out[k] == r;
      assert r.path[1..] == reasons[k].path;
      assert Reason(r.path[1..], r.why) == reasons[k];
    }
    if Under(slot, i, r, reasons) {
      var k :| 0 <= k < |reasons| && reasons[k] == Reason(r.path[1..], r.why);
      assert r.path == [(slot, i)] + r.path[1..];
      assert out[k] == r;
    }
  }

  lemma {:induction false} BranchReasonsAre(
      w: World, cls: Text, slot: ListSlot, branches: seq<Node>, n: nat, place: Place, depth: nat, r: Reason)
    requires n <= |branches| && depth <= MAX_COMPOSITION_DEPTH
    ensures r in BranchReasons(w, cls, slot, branches, n, place, depth) <==>
              SomeBranchGives(w, cls, slot, branches, n, place, depth, r)
    decreases n
  {
    hide Problems, Prefixed, Under;
    if n > 0 {
      BranchReasonsAre(w, cls, slot, branches, n - 1, place, depth, r);
      PrefixedAre(slot, n - 1, Problems(w, cls, branches[n - 1], place, false, depth + 1), r);
    }
  }

  /** Some conjunct holds this reason. */
  ghost predicate InSome(conjuncts: seq<seq<Reason>>, r: Reason) {
    exists c :: c in conjuncts && r in c
  }

  lemma InSomeOf(a: seq<seq<Reason>>, b: seq<seq<Reason>>, r: Reason)
    ensures InSome(a + b, r) <==> InSome(a, r) || InSome(b, r)
  {
    if c :| c in a && r in c {
      assert c in a + b;
    }
    if c :| c in b && r in c {
      assert c in a + b;
    }
  }

  lemma {:induction false} FlattenedAre(conjuncts: seq<seq<Reason>>, r: Reason)
    ensures r in Flattened(conjuncts) <==> InSome(conjuncts, r)
  {
    if conjuncts != [] {
      var n := |conjuncts| - 1;
      FlattenedAre(conjuncts[..n], r);
      InSomeOf(conjuncts[..n], [conjuncts[n]], r);
      assert conjuncts == conjuncts[..n] + [conjuncts[n]];
      assert InSome([conjuncts[n]], r) <==> r in conjuncts[n] by {
        assert conjuncts[n] in [conjuncts[n]];
      }
    }
  }

  lemma {:induction false} MemberConjunctsAre(w: World, cls: Text, members: seq<Node>, n: nat, place: Place, depth: nat, r: Reason)
    requires n <= |members| && depth <= MAX_COMPOSITION_DEPTH
    ensures InSome(MemberConjuncts(w, cls, members, n, place, depth), r) <==>
              SomeBranchGives(w, cls, AllOfSlot, members, n, place, depth, r)
    decreases n
  {
    hide Problems, Prefixed, Under;
    if n > 0 {
      var last := Prefixed(AllOfSlot, n - 1, Problems(w, cls, members[n - 1], place, false, depth + 1));
      MemberConjunctsAre(w, cls, members, n - 1, place, depth, r);
      PrefixedAre(AllOfSlot, n - 1, Problems(w, cls, members[n - 1], place, false, depth + 1), r);
      InSomeOf(MemberConjuncts(w, cls, members, n - 1, place, depth), [last], r);
      assert InSome([last], r) <==> r in last by {
        assert last in [last];
      }
    }
  }

  lemma OneConjunct(c: seq<Reason>, r: Reason)
    ensures InSome([c], r) <==> r in c
    ensures !InSome([], r)
  {
    assert c in [c];
  }

  lemma ConjunctsGive(w: World, cls: Text, node: Node, place: Place, depth: nat, r: Reason)
    requires node.ObjectNode? && depth <= MAX_COMPOSITION_DEPTH
    ensures InSome(AllConjuncts(w, cls, node, place, depth), r) <==> exists g :: Gives(w, cls, node, place, depth, g, r)
  {
    hide Problems, BranchReasons, MemberConjuncts, SomeBranchGives, Under, InSome;
    var refs, values := RefConjuncts(w, cls, node, place, depth), ValueConjuncts(w, cls, node, place);
    var any, one := AlternativeConjuncts(w, cls, AnyOfSlot, node.anyOf, place, depth), AlternativeConjuncts(w, cls, OneOfSlot, node.oneOf, place, depth);
    var all := if node.allOf.Some? then MemberConjuncts(w, cls, node.allOf.value, |node.allOf.value|, place, depth) else [];
    InSomeOf(refs, values, r);
    InSomeOf(refs + values, any, r);
    InSomeOf(refs + values + any, one, r);
    InSomeOf(refs + values + any + one, all, r);
    RefsGive(w, cls, node, place, depth, r);
    ValuesGive(w, cls, node, place, depth, r);
    AlternativesGive(w, cls, node, place, depth, r);
    MembersGive(w, cls, node, place, depth, r, all);
    if g :| Gives(w, cls, node, place, depth, g, r) {
      assert g.ByMember? || g in {ByRef, ByKeywords, ByAlternatives(AnyOfSlot), ByAlternatives(OneOfSlot)};
    }
  }

  lemma RefsGive(w: World, cls: Text, node: Node, place: Place, depth: nat, r: Reason)
    requires node.ObjectNode? && depth <= MAX_COMPOSITION_DEPTH
    ensures InSome(RefConjuncts(w, cls, node, place, depth), r) <==> Gives(w, cls, node, place, depth, ByRef, r)
  {
    hide Problems, InSome;
    var cs := RefConjuncts(w, cls, node, place, depth);
    OneConjunct(if cs == [] then [] else cs[0], r);
    assert cs == [] || cs == [cs[0]];
  }

  lemma ValuesGive(w: World, cls: Text, node: Node, place: Place, depth: nat, r: Reason)
    requires node.ObjectNode? && depth <= MAX_COMPOSITION_DEPTH
    ensures InSome(ValueConjuncts(w, cls, node, place), r) <==> Gives(w, cls, node, place, depth, ByKeywords, r)
  {
    hide Problems, InSome;
    var cs := ValueConjuncts(w, cls, node, place);
    OneConjunct(if cs == [] then [] else cs[0], r);
    assert cs == [] || cs == [cs[0]];
  }

  lemma AlternativesGive(w: World, cls: Text, node: Node, place: Place, depth: nat, r: Reason)
    requires node.ObjectNode? && depth <= MAX_COMPOSITION_DEPTH
    ensures InSome(AlternativeConjuncts(w, cls, AnyOfSlot, node.anyOf, place, depth), r) <==>
              Gives(w, cls, node, place, depth, ByAlternatives(AnyOfSlot), r)
    ensures InSome(AlternativeConjuncts(w, cls, OneOfSlot, node.oneOf, place, depth), r) <==>
              Gives(w, cls, node, place, depth, ByAlternatives(OneOfSlot), r)
  {
    hide Problems, InSome, BranchReasons, SomeBranchGives;
    if node.anyOf.Some? {
      BranchReasonsAre(w, cls, AnyOfSlot, node.anyOf.value, |node.anyOf.value|, place, depth, r);
      OneConjunct(BranchReasons(w, cls, AnyOfSlot, node.anyOf.value, |node.anyOf.value|, place, depth), r);
    }
    if node.oneOf.Some? {
      BranchReasonsAre(w, cls, OneOfSlot, node.oneOf.value, |node.oneOf.value|, place, depth, r);
      OneConjunct(BranchReasons(w, cls, OneOfSlot, node.oneOf.value, |node.oneOf.value|, place, depth), r);
    }
    OneConjunct([], r);
  }

  lemma MembersGive(w: World, cls: Text, node: Node, place: Place, depth: nat, r: Reason, all: seq<seq<Reason>>)
    requires node.ObjectNode? && depth <= MAX_COMPOSITION_DEPTH
    requires all == if node.allOf.Some? then MemberConjuncts(w, cls, node.allOf.value, |node.allOf.value|, place, depth) else []
    ensures InSome(all, r) <==> exists i :: Gives(w, cls, node, place, depth, ByMember(i), r)
  {
    hide Problems, InSome, MemberConjuncts, Under;
    OneConjunct([], r);
    if node.allOf.Some? {
      MemberConjunctsAre(w, cls, node.allOf.value, |node.allOf.value|, place, depth, r);
      if i :| 0 <= i < |node.allOf.value| && Under(AllOfSlot, i, r, Problems(w, cls, node.allOf.value[i], place, false, depth + 1)) {
        assert Gives(w, cls, node, place, depth, ByMember(i), r);
      }
    }
  }

  /** No keyword the check could rest on. */
  predicate NothingToCheck(node: Node) {
    && node.ObjectNode? && node.ref.None? && !node.hasValueKeys && node.anyOf.None? && node.oneOf.None?
    && (node.allOf.None? || node.allOf.value == [])
  }

  lemma NoConjunctsIff(w: World, cls: Text, node: Node, place: Place, depth: nat)
    requires node.ObjectNode? && depth <= MAX_COMPOSITION_DEPTH
    ensures AllConjuncts(w, cls, node, place, depth) == [] <==> NothingToCheck(node)
  {
    hide Problems, BranchReasons;
    if node.allOf.Some? {
      OneEach(w, cls, node.allOf.value, |node.allOf.value|, place, depth);
    }
  }

  lemma {:induction false} OneEach(w: World, cls: Text, members: seq<Node>, n: nat, place: Place, depth: nat)
    requires n <= |members| && depth <= MAX_COMPOSITION_DEPTH
    ensures |MemberConjuncts(w, cls, members, n, place, depth)| == n
    decreases n
  {
    hide Problems;
    if n > 0 {
      OneEach(w, cls, members, n - 1, place, depth);
    }
  }

  /**
   The reasons of a schema object whose keywords are looked at: every reason of every conjunct,
   led to by its branch, unless one conjunct gives none.
   */
  lemma ReasonsOfObject(w: World, cls: Text, node: Node, place: Place, depth: nat, r: Reason)
    requires node.ObjectNode? && depth <= MAX_COMPOSITION_DEPTH
    ensures r in Combined(AllConjuncts(w, cls, node, place, depth)) <==>
              if NothingToCheck(node) then r == Reason([], Unconstrained)
              else (forall g :: !Grounds(w, cls, node, place, depth, g)) && exists g :: Gives(w, cls, node, place, depth, g, r)
  {
    hide Problems, AllConjuncts, Grounds, Gives, Flattened, InSome;
    var conjuncts := AllConjuncts(w, cls, node, place, depth);
    NoConjunctsIff(w, cls, node, place, depth);
    ConjunctsGive(w, cls, node, place, depth, r);
    FlattenedAre(conjuncts, r);
    SatisfiedConjunct(conjuncts);
    var g := EmptyHasGround(w, cls, node, place, depth);
    forall g | Grounds(w, cls, node, place, depth, g) ensures Combined(conjuncts) == [] {
      GroundMakesEmpty(w, cls, node, place, depth, g);
    }
  }

  /** The reasons of any node. */
  lemma ReasonsAre(w: World, cls: Text, node: Node, place: Place, root: bool, depth: nat, r: Reason)
    ensures IsHiddenByRef(w, node, place) ==>
              var target := w.resolve(place, node.ref.value);
              r in Problems(w, cls, node, place, root, depth) <==>
                if target.None? || !target.value.1.ObjectNode? then r == Reason([], Unresolvable(node.ref.value))
                else if depth > 12 then r == Reason([], TooDeep)
                else if node.isLegacy && !root then r == Reason([], LegacyBranch)
                else r in Problems(w, cls, target.value.1, target.value.0, false, depth + 1)
    ensures !IsHiddenByRef(w, node, place) ==>
              (r in Problems(w, cls, node, place, root, depth) <==>
                if node == BoolNode(false) || (node.ObjectNode? && node.typeIsNull) then false
                else if !node.ObjectNode? then r == Reason([], Unconstrained)
                else if depth > 12 then r == Reason([], TooDeep)
                else if node.isLegacy && !root then r == Reason([], LegacyBranch)
                else if NothingToCheck(node) then r == Reason([], Unconstrained)
                else (forall g :: !Grounds(w, cls, node, place, depth, g)) && exists g :: Gives(w, cls, node, place, depth, g, r))
  {
    hide AllConjuncts, Combined, Grounds, Gives, NothingToCheck;
    if !IsHiddenByRef(w, node, place) && node.ObjectNode? && depth <= MAX_COMPOSITION_DEPTH {
      ReasonsOfObject(w, cls, node, place, depth, r);
    }
  }

  /**
   Soundness: with no reasons against the claim, every value the node accepts is null or in
   the class, for any nesting of references and combinators, under any validator that respects
   the keywords, recursive references included.
   */
  lemma {:induction false} ClaimHolds(
      w: World, cls: Text, node: Node, place: Place, root: bool, depth: nat, valid: (Place, Node, Instance) -> bool, v: Instance)
    requires SoundLeafCheck(w) && Respects(w, valid)
    requires Problems(w, cls, node, place, root, depth) == [] && valid(place, node, v)
    ensures InClaim(w, cls, v)
    decreases Room(depth)
  {
    hide Problems, AllConjuncts, Combined;
    assert Demands(w, valid, place, node, v);
    hide Respects;
    EmptyAnswer(w, cls, node, place, root, depth);
    if IsHiddenByRef(w, node, place) {
      var target := w.resolve(place, node.ref.value);
      ClaimHolds(w, cls, target.value.1, target.value.0, false, depth + 1, valid, v);
    } else if node != BoolNode(false) && !(node.ObjectNode? && node.typeIsNull) {
      var g := EmptyHasGround(w, cls, node, place, depth);
      match g
      case ByRef =>
        var target := w.resolve(place, node.ref.value);
        ClaimHolds(w, cls, target.value.1, target.value.0, false, depth + 1, valid, v);
      case ByKeywords =>
      case ByAlternatives(slot) =>
        var branches := if slot.AnyOfSlot? then node.anyOf.value else node.oneOf.value;
        var i :| 0 <= i < |branches| && valid(place, branches[i], v);
        ClaimHolds(w, cls, branches[i], place, false, depth + 1, valid, v);
      case ByMember(i) =>
        ClaimHolds(w, cls, node.allOf.value[i], place, false, depth + 1, valid, v);
    }
  }

  /**
   Running out of depth proves nothing: where no depth is left, an empty answer is given only for
   nodes that accept null at most, so it says nothing about any class.
   */
  lemma OutOfDepthProvesNothing(
      w: World, cls: Text, node: Node, place: Place, root: bool, depth: nat, valid: (Place, Node, Instance) -> bool, v: Instance)
    requires depth > MAX_COMPOSITION_DEPTH && Problems(w, cls, node, place, root, depth) == []
    requires Respects(w, valid) && valid(place, node, v)
    ensures v == Null && forall cls' :: Problems(w, cls', node, place, root, depth) == []
  {
    assert Demands(w, valid, place, node, v);
  }

  /** More room never loses a proof: an empty answer stays empty at a smaller depth. */
  lemma {:induction false} MoreRoomKeepsProofs(w: World, cls: Text, node: Node, place: Place, root: bool, depth: nat, depth': nat)
    requires depth' <= depth && Problems(w, cls, node, place, root, depth) == []
    ensures Problems(w, cls, node, place, root, depth') == []
    decreases Room(depth')
  {
    hide Problems, AllConjuncts, Combined;
    EmptyAnswer(w, cls, node, place, root, depth);
    EmptyAnswer(w, cls, node, place, root, depth');
    if IsHiddenByRef(w, node, place) {
      var target := w.resolve(place, node.ref.value);
      MoreRoomKeepsProofs(w, cls, target.value.1, target.value.0, false, depth + 1, depth' + 1);
    } else if node != BoolNode(false) && !(node.ObjectNode? && node.typeIsNull) {
      var g := EmptyHasGround(w, cls, node, place, depth);
      match g {
        case ByRef =>
          var target := w.resolve(place, node.ref.value);
          MoreRoomKeepsProofs(w, cls, target.value.1, target.value.0, false, depth + 1, depth' + 1);
        case ByKeywords =>
        case ByAlternatives(slot) =>
          var branches := if slot.AnyOfSlot? then node.anyOf.value else node.oneOf.value;
          forall i | 0 <= i < |branches| ensures Problems(w, cls, branches[i], place, false, depth' + 1) == [] {
            MoreRoomKeepsProofs(w, cls, branches[i], place, false, depth + 1, depth' + 1);
          }
        case ByMember(i) =>
          MoreRoomKeepsProofs(w, cls, node.allOf.value[i], place, false, depth + 1, depth' + 1);
      }
      GroundMakesEmpty(w, cls, node, place, depth', g);
    }
  }

  /** A node where it was found. */
  datatype Point = Point(place: Place, node: Node)

  /** The node a `$ref` leads to, if it leads to a schema object. */
  function TargetOf(w: World, p: Point): Option<Point>
    requires p.node.ObjectNode? && p.node.ref.Some?
  {
    var target := w.resolve(p.place, p.node.ref.value);
    if target.Some? && target.value.1.ObjectNode? then Some(Point(target.value.0, target.value.1)) else None
  }

  ghost predicate StaysIn(s: iset<Point>, w: World, p: Point)
    requires p.node.ObjectNode?
  {
    p.node.ref.Some? && TargetOf(w, p).Some? ==> TargetOf(w, p).value in s
  }

  ghost predicate SomeStays(s: iset<Point>, place: Place, branches: Option<seq<Node>>) {
    branches.Some? ==> exists i :: 0 <= i < |branches.value| && Point(place, branches.value[i]) in s
  }

  /**
   Claims that rest only on each other: every way to justify the class at a node of s leads to a
   node of s again.
   */
  ghost predicate Circular(s: iset<Point>, w: World, cls: Text) {
    forall p :: p in s ==> CircularAt(s, w, cls, p)
  }

  ghost predicate CircularAt(s: iset<Point>, w: World, cls: Text, p: Point) {
    && p.node.ObjectNode?
    && StaysIn(s, w, p)
    && (!IsHiddenByRef(w, p.node, p.place) ==>
          && !p.node.typeIsNull
          && (p.node.hasValueKeys ==> w.semanticProblem(cls, p.node, p.place.doc).Some?)
          && SomeStays(s, p.place, p.node.anyOf)
          && SomeStays(s, p.place, p.node.oneOf)
          && (p.node.allOf.Some? ==> forall i :: 0 <= i < |p.node.allOf.value| ==> Point(p.place, p.node.allOf.value[i]) in s))
  }

  /**
   Recursive references never yield an empty answer: whatever cycles through refs and combinators
   without meeting a node that justifies the class is refused, at every depth and in both dialects.
   */
  lemma {:induction false} CircularClaimsAreRefused(s: iset<Point>, w: World, cls: Text, p: Point, root: bool, depth: nat)
    requires Circular(s, w, cls) && p in s
    ensures Problems(w, cls, p.node, p.place, root, depth) != []
    decreases Room(depth)
  {
    assert CircularAt(s, w, cls, p);
    if depth <= MAX_COMPOSITION_DEPTH {
      if IsHiddenByRef(w, p.node, p.place) {
        if TargetOf(w, p).Some? {
          CircularClaimsAreRefused(s, w, cls, TargetOf(w, p).value, false, depth + 1);
        }
      } else if Combined(AllConjuncts(w, cls, p.node, p.place, depth)) == [] {
        var g := EmptyHasGround(w, cls, p.node, p.place, depth);
        NoCircularGround(s, w, cls, p, depth, g);
      }
    }
  }

  lemma {:induction false} NoCircularGround(s: iset<Point>, w: World, cls: Text, p: Point, depth: nat, g: Ground)
    requires Circular(s, w, cls) && p in s && p.node.ObjectNode? && !IsHiddenByRef(w, p.node, p.place)
    requires depth <= MAX_COMPOSITION_DEPTH
    ensures !Grounds(w, cls, p.node, p.place, depth, g)
    decreases Room(depth), 0
  {
    hide Problems, AllConjuncts, Combined;
    assert CircularAt(s, w, cls, p);
    match g
    case ByRef =>
      if p.node.ref.Some? && TargetOf(w, p).Some? {
        CircularClaimsAreRefused(s, w, cls, TargetOf(w, p).value, false, depth + 1);
      }
    case ByKeywords =>
    case ByAlternatives(slot) =>
      var branches := if slot.AnyOfSlot? then p.node.anyOf else p.node.oneOf;
      if branches.Some? {
        var i :| 0 <= i < |branches.value| && Point(p.place, branches.value[i]) in s;
        CircularClaimsAreRefused(s, w, cls, Point(p.place, branches.value[i]), false, depth + 1);
      }
    case ByMember(i) =>
      if p.node.allOf.Some? && i < |p.node.allOf.value| {
        CircularClaimsAreRefused(s, w, cls, Point(p.place, p.node.allOf.value[i]), false, depth + 1);
      }
  }

  /** The smallest case: a reference that only leads back to itself. */
  lemma EmptyCycleIsRefused(w: World, cls: Text, node: Node, place: Place, root: bool, depth: nat)
    requires node.ObjectNode? && node.ref.Some? && w.resolve(place, node.ref.value) == Some((place, node))
    requires !node.typeIsNull && !node.hasValueKeys && node.anyOf.None? && node.oneOf.None? && node.allOf.None?
    ensures Problems(w, cls, node, place, root, depth) != []
  {
    CircularClaimsAreRefused(iset{Point(place, node)}, w, cls, Point(place, node), root, depth);
  }
}
