/**
 Planning and running a tar extraction (`scripts/_path_safety.py`): everything is approved before
 the first write, and an approved plan then runs to completion on an empty destination.
 */
module TarExtraction {
  import opened Outcomes
  import opened Sorting

  /** Components below the destination; the destination itself is []. */
  type Path = seq<Text>

  datatype Kind = RegularFile(content: Text) | Directory | Special(linkStaysWithin: bool)

  /** destination: what the member's name resolves to, None when the name is unsafe. */
  datatype Member = Member(destination: Option<Path>, kind: Kind)

  datatype Policy = Reject | Skip

  datatype Plan = Plan(path: Path, kind: Kind)

  datatype Fault =
    | UnsafePath
    | EscapingLink
    | UnsafeType
    | DuplicateDestination(path: Path)
    | NonDirectoryParent(path: Path, parent: Path)
    | UnsafeRequiredPath
    | MissingDirectory(path: Path)

  // ----- what is approved

  predicate IsRegular(m: Member) {
    !m.kind.Special?
  }

  /** `_member_destination` succeeds: a place below the destination. */
  predicate StaysWithin(m: Member) {
    m.destination.Some? && m.destination.value != [] && (m.kind.Special? ==> m.kind.linkStaysWithin)
  }

  ghost predicate AllStayWithin(members: seq<Member>) {
    forall m :: m in members ==> StaysWithin(m)
  }

  /** Files and directories in archive order. */
  ghost function Planned(members: seq<Member>): seq<Plan>
    requires AllStayWithin(members)
  {
    if members == [] then []
    else
      var init, last := members[..|members| - 1], members[|members| - 1];
      assert members == init + [last];
      assert last in members;
      Planned(init) + if IsRegular(last) then [Plan(last.destination.value, last.kind)] else []
  }

  /** Every file and every directory of the archive is planned where its name leads, and nothing else is. */
  lemma {:induction false} PlannedAre(members: seq<Member>)
    requires AllStayWithin(members)
    ensures forall p :: p in Planned(members) <==>
              exists m :: m in members && (m.kind.RegularFile? || m.kind.Directory?) && p == Plan(m.destination.value, m.kind)
  {
    if members != [] {
      var init, last := members[..|members| - 1], members[|members| - 1];
      assert members == init + [last];
      PlannedAre(init);
    }
  }

  function Paths(plans: seq<Plan>): seq<Path> {
    seq(|plans|, i requires 0 <= i < |plans| => plans[i].path)
  }

  predicate ProperPrefix(a: Path, b: Path) {
    |a| < |b| && a == b[..|a|]
  }

  /** Some plan puts something other than a directory there. */
  ghost predicate NonDirectoryAt(plans: seq<Plan>, path: Path) {
    exists q :: q in plans && q.path == path && !q.kind.Directory?
  }

  ghost predicate ParentsAreDirectories(plans: seq<Plan>) {
    forall p, parent: Path :: p in plans && parent != [] && ProperPrefix(parent, p.path) ==> !NonDirectoryAt(plans, parent)
  }

  ghost predicate RequiredPresent(plans: seq<Plan>, required: seq<Option<Path>>) {
    forall r :: r in required ==> r.Some? && Plan(r.value, Directory) in plans
  }

  /** The archive is approved: every name and link stays below, and the plan is consistent. */
  ghost predicate Approved(members: seq<Member>, policy: Policy, required: seq<Option<Path>>) {
    && AllStayWithin(members)
    && (policy.Reject? ==> forall m :: m in members ==> IsRegular(m))
    && Distinct(Paths(Planned(members)))
    && ParentsAreDirectories(Planned(members))
    && RequiredPresent(Planned(members), required)
  }

  // ----- approval in terms of the archive alone

  predicate IsLaidDown(m: Member) {
    m.kind.RegularFile? || m.kind.Directory?
  }

  /** Two files or directories lead to one place. */
  predicate Collide(m: Member, n: Member) {
    IsLaidDown(m) && IsLaidDown(n) && m.destination == n.destination
  }

  ghost predicate NoCollisions(members: seq<Member>) {
    forall i, j :: 0 <= i < j < |members| ==> !Collide(members[i], members[j])
  }

  /** m puts a file where a directory of n's path should stand. */
  predicate Blocks(m: Member, n: Member) {
    && m.kind.RegularFile? && IsLaidDown(n) && m.destination.Some? && n.destination.Some?
    && m.destination.value < n.destination.value
  }

  /**
   Every name leads to a place strictly below the destination and every link stays within; no
   special members under the strict policy; no two files or directories at one place, no file
   where another member needs a directory; and each required directory is a member.
   */
  ghost predicate IsSoundArchive(members: seq<Member>, policy: Policy, required: seq<Option<Path>>) {
    && (forall m :: m in members ==> m.destination.Some? && m.destination.value != [])
    && (forall m :: m in members && m.kind.Special? ==> m.kind.linkStaysWithin && policy.Skip?)
    && NoCollisions(members)
    && (forall m, n :: m in members && n in members ==> !Blocks(m, n))
    && (forall r :: r in required ==> r.Some? && exists m :: m in members && m.destination == r && m.kind.Directory?)
  }

  lemma NoCollisionsSnoc(init: seq<Member>, last: Member)
    ensures NoCollisions(init + [last]) <==> NoCollisions(init) && !exists i :: 0 <= i < |init| && Collide(init[i], last)
  {
    hide Collide;
    var members := init + [last];
    assert members[|init|] == last;
    forall i | 0 <= i < |init| ensures members[i] == init[i] {}
    if NoCollisions(members) {
      forall i | 0 <= i < |init| ensures !Collide(init[i], last) {
        assert !Collide(members[i], members[|init|]);
      }
    }
  }

  lemma {:induction false} DistinctIffNoCollision(members: seq<Member>)
    requires AllStayWithin(members)
    ensures Distinct(Paths(Planned(members))) <==> NoCollisions(members)
  {
    hide NoCollisions, Collide, Distinct, Paths;
    if members == [] {
      NothingCollides();
    } else {
      var n := |members| - 1;
      var init, last := members[..n], members[n];
      assert members == init + [last];
      DistinctIffNoCollision(init);
      PlannedSnoc(init, last);
      NoCollisionsSnoc(init, last);
      if IsRegular(last) {
        DistinctSnoc(Planned(init), Plan(last.destination.value, last.kind));
        PathPlanned(init, last);
      }
    }
  }

  lemma NothingCollides()
    ensures NoCollisions([]) && Distinct(Paths(Planned([])))
  {
  }

  lemma PlannedSnoc(init: seq<Member>, last: Member)
    requires AllStayWithin(init + [last]) && AllStayWithin(init) && StaysWithin(last)
    ensures Planned(init + [last]) == Planned(init) + if IsRegular(last) then [Plan(last.destination.value, last.kind)] else []
    ensures !IsRegular(last) ==> Planned(init + [last]) == Planned(init) && forall m :: !Collide(m, last)
  {
    assert (init + [last])[..|init|] == init;
  }

  lemma DistinctSnoc(plans: seq<Plan>, p: Plan)
    ensures Distinct(Paths(plans + [p])) <==> Distinct(Paths(plans)) && forall q :: q in plans ==> q.path != p.path
  {
    var s, t := Paths(plans), Paths(plans + [p]);
    forall i | 0 <= i < |plans| ensures t[i] == s[i] == plans[i].path {}
    assert t[|plans|] == p.path;
    if Distinct(t) {
      forall q | q in plans ensures q.path != p.path {
        var i :| 0 <= i < |plans| && plans[i] == q;
        assert t[i] != t[|plans|];
      }
      forall i, j | 0 <= i < j < |s| ensures s[i] != s[j] {
        assert t[i] != t[j];
      }
    }
    if Distinct(s) && forall q :: q in plans ==> q.path != p.path {
      forall i, j | 0 <= i < j < |t| ensures t[i] != t[j] {
        assert j == |plans| ==> plans[i] in plans;
      }
    }
  }

  lemma PathPlanned(init: seq<Member>, last: Member)
    requires AllStayWithin(init) && StaysWithin(last) && IsRegular(last)
    ensures (exists q :: q in Planned(init) && q.path == last.destination.value) <==>
            exists i :: 0 <= i < |init| && Collide(init[i], last)
  {
    PlannedAre(init);
    hide Planned;
    if q :| q in Planned(init) && q.path == last.destination.value {
      var m :| m in init && IsLaidDown(m) && q == Plan(m.destination.value, m.kind);
      var i :| 0 <= i < |init| && init[i] == m;
      assert StaysWithin(m);
      assert Collide(init[i], last);
    }
    if i :| 0 <= i < |init| && Collide(init[i], last) {
      assert init[i] in init;
      assert Plan(init[i].destination.value, init[i].kind) in Planned(init);
    }
  }

  lemma ParentsIffNoBlock(members: seq<Member>)
    requires AllStayWithin(members)
    ensures ParentsAreDirectories(Planned(members)) <==> forall m, n :: m in members && n in members ==> !Blocks(m, n)
  {
    PlannedAre(members);
    hide Planned;
    var plans := Planned(members);
    if ParentsAreDirectories(plans) {
      forall m, n | m in members && n in members ensures !Blocks(m, n) {
        if Blocks(m, n) {
          BlockBreaks(members, m, n);
        }
      }
    }
    if forall m, n :: m in members && n in members ==> !Blocks(m, n) {
      forall p, parent: Path | p in plans && parent != [] && ProperPrefix(parent, p.path) ensures !NonDirectoryAt(plans, parent) {
        var n :| n in members && IsLaidDown(n) && p == Plan(n.destination.value, n.kind);
        forall q | q in plans && q.path == parent ensures q.kind.Directory? {
          var m :| m in members && IsLaidDown(m) && q == Plan(m.destination.value, m.kind);
          assert StaysWithin(m) && StaysWithin(n) && !Blocks(m, n);
        }
      }
    }
  }

  lemma BlockBreaks(members: seq<Member>, m: Member, n: Member)
    requires AllStayWithin(members) && m in members && n in members && Blocks(m, n)
    ensures !ParentsAreDirectories(Planned(members))
  {
    PlannedAre(members);
    hide Planned;
    var q, p := Plan(m.destination.value, m.kind), Plan(n.destination.value, n.kind);
    assert StaysWithin(m);
    assert q in Planned(members) && p in Planned(members);
    assert ProperPrefix(q.path, p.path) && NonDirectoryAt(Planned(members), q.path);
  }

  lemma RequiredIffMembers(members: seq<Member>, required: seq<Option<Path>>)
    requires AllStayWithin(members)
    ensures RequiredPresent(Planned(members), required) <==>
            forall r :: r in required ==> r.Some? && exists m :: m in members && m.destination == r && m.kind.Directory?
  {
    PlannedAre(members);
    hide Planned;
    if RequiredPresent(Planned(members), required) {
      forall r | r in required ensures r.Some? && exists m :: m in members && m.destination == r && m.kind.Directory? {
        var m :| m in members && IsLaidDown(m) && Plan(r.value, Directory) == Plan(m.destination.value, m.kind);
        assert StaysWithin(m);
      }
    }
  }

  /** Approved archives are the sound ones, said without any plan. */
  lemma ApprovedIffSound(members: seq<Member>, policy: Policy, required: seq<Option<Path>>)
    ensures Approved(members, policy, required) <==> IsSoundArchive(members, policy, required)
  {
    hide Planned, NoCollisions, Blocks, Distinct, Paths, ParentsAreDirectories, RequiredPresent;
    if AllStayWithin(members) {
      DistinctIffNoCollision(members);
      ParentsIffNoBlock(members);
      RequiredIffMembers(members, required);
    }
  }

  // ----- planning

  /** What is planned at each destination. */
  ghost predicate Records(byDestination: map<Path, Kind>, plans: seq<Plan>) {
    && (forall p :: p in plans ==> p.path in byDestination && byDestination[p.path] == p.kind)
    && (forall path :: path in byDestination ==> Plan(path, byDestination[path]) in plans)
  }

  /** `_validate_tar_members_stay_within`. */
  method ValidateMembers(members: seq<Member>) returns (fault: Option<Fault>)
    ensures fault.None? <==> AllStayWithin(members)
    ensures fault.Some? ==> fault.value in {UnsafePath, EscapingLink}
  {
    for i := 0 to |members|
      invariant forall j :: 0 <= j < i ==> StaysWithin(members[j])
    {
      assert members[i] in members;
      if members[i].destination.None? || members[i].destination.value == [] {
        return Some(UnsafePath);
      }
      if members[i].kind.Special? && !members[i].kind.linkStaysWithin {
        return Some(EscapingLink);
      }
    }
    fault := None;
  }

  /** `_plan_tar_members`. */
  method PlanTarMembers(members: seq<Member>, policy: Policy) returns (r: Result<(seq<Plan>, map<Path, Kind>), Fault>)
    requires AllStayWithin(members)
    ensures r.Ok? <==> (policy.Reject? ==> forall m :: m in members ==> IsRegular(m)) && Distinct(Paths(Planned(members)))
    ensures r.Ok? ==> r.value.0 == Planned(members) && Records(r.value.1, r.value.0)
    ensures r.Err? && r.error.UnsafeType? ==> policy.Reject? && exists m :: m in members && !IsRegular(m)
    ensures r.Err? && r.error.DuplicateDestination? ==> !Distinct(Paths(Planned(members)))
    ensures r.Err? ==> r.error.UnsafeType? || r.error.DuplicateDestination?
  {
    var plans: seq<Plan> := [];
    var planned: map<Path, Kind> := map[];
    NothingPlanned(members);
    hide Planned, Records, Distinct, Paths, AllStayWithin, IsRegular;
    for i := 0 to |members|
      invariant plans == Planned(members[..i]) && Records(planned, plans) && Distinct(Paths(plans))
      invariant policy.Reject? ==> forall j :: 0 <= j < i ==> IsRegular(members[j])
    {
      assert members[i] in members;
      PlannedGrows(members, i);
      if members[i].kind.Special? {
        if policy.Reject? {
          return Err(UnsafeType);
        }
        continue;
      }
      var path := members[i].destination.value;
      if path in planned {
        RepeatedPath(plans, Plan(path, members[i].kind), planned);
        RepetitionStays(members, i + 1);
        return Err(DuplicateDestination(path));
      }
      NewPath(plans, Plan(path, members[i].kind), planned);
      planned := planned[path := members[i].kind];
      plans := plans + [Plan(path, members[i].kind)];
    }
    assert members[..|members|] == members;
    r := Ok((plans, planned));
  }

  lemma NothingPlanned(members: seq<Member>)
    requires AllStayWithin(members)
    ensures AllStayWithin(members[..0]) && Planned(members[..0]) == [] && Records(map[], []) && Distinct(Paths([]))
  {
  }

  /** Two members with one destination stay two members with one destination. */
  lemma RepetitionStays(members: seq<Member>, i: nat)
    requires AllStayWithin(members) && i <= |members| && AllStayWithin(members[..i]) && !Distinct(Paths(Planned(members[..i])))
    ensures !Distinct(Paths(Planned(members)))
  {
    PlannedPrefix(members, i);
    var whole, prefix := Paths(Planned(members)), Paths(Planned(members[..i]));
    var a, b :| 0 <= a < b < |prefix| && prefix[a] == prefix[b];
    assert whole[a] == prefix[a] && whole[b] == prefix[b] by {
      hide Planned;
      assert Planned(members)[..|prefix|][a] == Planned(members)[a] && Planned(members)[..|prefix|][b] == Planned(members)[b];
    }
  }

  lemma PlannedGrows(members: seq<Member>, i: nat)
    requires AllStayWithin(members) && i < |members|
    ensures AllStayWithin(members[..i]) && AllStayWithin(members[..i + 1]) && StaysWithin(members[i])
    ensures Planned(members[..i + 1])
         == Planned(members[..i]) + if IsRegular(members[i]) then [Plan(members[i].destination.value, members[i].kind)] else []
  {
    assert members[i] in members && members[..i + 1][..i] == members[..i];
  }

  lemma {:induction false} PlannedPrefix(members: seq<Member>, i: nat)
    requires AllStayWithin(members) && i <= |members|
    ensures AllStayWithin(members[..i]) && |Planned(members[..i])| <= |Planned(members)|
    ensures Planned(members)[..|Planned(members[..i])|] == Planned(members[..i])
    decreases |members| - i
  {
    if i == |members| {
      assert members[..i] == members;
    } else {
      PlannedPrefix(members, i + 1);
      PlannedGrows(members, i);
    }
  }

  lemma RepeatedPath(plans: seq<Plan>, p: Plan, planned: map<Path, Kind>)
    requires Records(planned, plans) && p.path in planned
    ensures !Distinct(Paths(plans + [p]))
  {
    var q := Plan(p.path, planned[p.path]);
    var i :| 0 <= i < |plans| && plans[i] == q;
    var s := Paths(plans + [p]);
    assert s[i] == s[|plans|];
  }

  lemma NewPath(plans: seq<Plan>, p: Plan, planned: map<Path, Kind>)
    requires Records(planned, plans) && p.path !in planned && Distinct(Paths(plans))
    ensures Distinct(Paths(plans + [p])) && Records(planned[p.path := p.kind], plans + [p])
  {
    var s := Paths(plans + [p]);
    forall i, j | 0 <= i < j < |s| ensures s[i] != s[j] {
      if j < |plans| {
        assert s[i] == Paths(plans)[i] && s[j] == Paths(plans)[j];
      } else {
        assert plans[i] in plans;
      }
    }
  }

  /** `_reject_non_directory_parents`: every planned path is walked up to the destination. */
  method RejectNonDirectoryParents(plans: seq<Plan>, planned: map<Path, Kind>) returns (fault: Option<Fault>)
    requires Records(planned, plans) && forall p :: p in plans ==> p.path != []
    ensures fault.None? <==> ParentsAreDirectories(plans)
    ensures fault.Some? ==>
              && fault.value.NonDirectoryParent? && fault.value.parent != []
              && ProperPrefix(fault.value.parent, fault.value.path) && NonDirectoryAt(plans, fault.value.parent)
  {
    for i := 0 to |plans|
      invariant forall j, parent :: 0 <= j < i && parent != [] && ProperPrefix(parent, plans[j].path) ==> !NonDirectoryAt(plans, parent)
    {
      var path := plans[i].path;
      assert plans[i] in plans;
      var parent := path[..|path| - 1];
      while parent != []
        invariant parent == path[..|parent|] && |parent| < |path|
        invariant forall above :: |parent| < |above| && ProperPrefix(above, path) ==> !NonDirectoryAt(plans, above)
        decreases |parent|
      {
        if parent in planned && !planned[parent].Directory? {
          assert NonDirectoryAt(plans, parent) by {
            assert Plan(parent, planned[parent]) in plans;
          }
          return Some(NonDirectoryParent(path, parent));
        }
        assert !NonDirectoryAt(plans, parent);
        parent := parent[..|parent| - 1];
      }
    }
    fault := None;
  }

  /** `_require_tar_directories`. */
  method RequireTarDirectories(plans: seq<Plan>, required: seq<Option<Path>>) returns (fault: Option<Fault>)
    ensures fault.None? <==> RequiredPresent(plans, required)
    ensures fault == Some(UnsafeRequiredPath) <==> None in required
    ensures fault.Some? && fault != Some(UnsafeRequiredPath) ==>
              && fault.value.MissingDirectory? && Some(fault.value.path) in required
              && Plan(fault.value.path, Directory) !in plans
  {
    for i := 0 to |required|
      invariant forall j :: 0 <= j < i ==> required[j].Some?
    {
      assert required[i] in required;
      if required[i].None? {
        return Some(UnsafeRequiredPath);
      }
    }
    for i := 0 to |required|
      invariant forall j :: 0 <= j < i ==> Plan(required[j].value, Directory) in plans
    {
      assert required[i] in required;
      if Plan(required[i].value, Directory) !in plans {
        return Some(MissingDirectory(required[i].value));
      }
    }
    fault := None;
  }

  /**
   `_prevalidate_tar_members` approves exactly the consistent archives, before any write.  A
   refusal names a fault of the first stage that finds one: names and links, then types and
   repeats, then parents, then required directories.
   */
  method PrevalidateTarMembers(members: seq<Member>, policy: Policy, required: seq<Option<Path>>) returns (r: Result<seq<Plan>, Fault>)
    ensures r.Ok? <==> Approved(members, policy, required)
    ensures r.Ok? ==> r.value == Planned(members)
    ensures r.Err? && r.error in {UnsafePath, EscapingLink} <==> !AllStayWithin(members)
    ensures r.Err? && (r.error.UnsafeType? || r.error.DuplicateDestination?) <==>
            && AllStayWithin(members)
            && !((policy.Reject? ==> forall m :: m in members ==> IsRegular(m)) && Distinct(Paths(Planned(members))))
    ensures r.Err? && r.error.NonDirectoryParent? ==>
              && AllStayWithin(members) && r.error.parent != [] && ProperPrefix(r.error.parent, r.error.path)
              && NonDirectoryAt(Planned(members), r.error.parent)
    ensures r.Err? && (r.error.UnsafeRequiredPath? || r.error.MissingDirectory?) ==>
              AllStayWithin(members) && ParentsAreDirectories(Planned(members)) && !RequiredPresent(Planned(members), required)
  {
    hide Planned, Records, Distinct, ProperPrefix, NonDirectoryAt, ParentsAreDirectories, RequiredPresent, IsRegular;
    var fault := ValidateMembers(members);
    if fault.Some? {
      return Err(fault.value);
    }
    var planned := PlanTarMembers(members, policy);
    if planned.Err? {
      return Err(planned.error);
    }
    PlannedAre(members);
    fault := RejectNonDirectoryParents(planned.value.0, planned.value.1);
    if fault.Some? {
      return Err(fault.value);
    }
    fault := RequireTarDirectories(planned.value.0, required);
    if fault.Some? {
      return Err(fault.value);
    }
    r := Ok(planned.value.0);
  }

  // ----- extraction

  datatype Node = DirectoryNode | FileNode(content: Text)

  datatype WriteError = NotADirectory | FileExists

  /** What a plan needs to be a directory: itself or its proper parents. */
  predicate NeedsDirectory(p: Plan, path: Path) {
    path != [] && (ProperPrefix(path, p.path) || (p.kind.Directory? && path == p.path))
  }

  ghost predicate SomeoneNeeds(plans: seq<Plan>, path: Path) {
    exists p :: p in plans && NeedsDirectory(p, path)
  }

  /** The tree holds exactly what the plans ask for. */
  ghost predicate Materialized(nodes: map<Path, Node>, plans: seq<Plan>) {
    && (forall path :: path in nodes && nodes[path].DirectoryNode? <==> SomeoneNeeds(plans, path))
    && (forall path, c :: path in nodes && nodes[path] == FileNode(c) <==> Plan(path, RegularFile(c)) in plans)
  }

  /** The files below the destination. */
  class FileTree {
    var nodes: map<Path, Node>

    constructor ()
      ensures nodes == map[]
    {
      nodes := map[];
    }

    /** `mkdir(parents=True, exist_ok=True)`: fails only on something that is not a directory. */
    method MakeDirectories(path: Path) returns (r: Result<(), WriteError>)
      modifies this
      ensures r.Ok? <==> forall k :: 0 < k <= |path| && path[..k] in old(nodes) ==> old(nodes)[path[..k]].DirectoryNode?
      ensures r.Ok? ==> forall q :: q in nodes <==> q in old(nodes) || (q != [] && (q == path || ProperPrefix(q, path)))
      ensures r.Ok? ==> forall q :: q in nodes ==> nodes[q] == if q in old(nodes) then old(nodes)[q] else DirectoryNode
    {
      for k := 0 to |path|
        invariant forall j :: 0 < j <= k && path[..j] in old(nodes) ==> old(nodes)[path[..j]].DirectoryNode?
        invariant forall q :: q in nodes <==> q in old(nodes) || (0 < |q| <= k && q == path[..|q|])
        invariant forall q :: q in nodes ==> nodes[q] == if q in old(nodes) then old(nodes)[q] else DirectoryNode
      {
        var prefix := path[..k + 1];
        assert |prefix| == k + 1;
        if prefix in nodes && !nodes[prefix].DirectoryNode? {
          return Err(NotADirectory);
        }
        if prefix !in nodes {
          nodes := nodes[prefix := DirectoryNode];
        }
      }
      r := Ok(());
    }

    /** `open("xb")`: the file must be new and its parent a directory. */
    method CreateFile(path: Path, content: Text) returns (r: Result<(), WriteError>)
      requires path != []
      modifies this
      ensures r.Ok? <==> path !in old(nodes) && ParentIsDirectory(old(nodes), path)
      ensures nodes == if r.Ok? then old(nodes)[path := FileNode(content)] else old(nodes)
    {
      var parent := path[..|path| - 1];
      if parent != [] && (parent !in nodes || !nodes[parent].DirectoryNode?) {
        return Err(NotADirectory);
      }
      if path in nodes {
        return Err(FileExists);
      }
      nodes := nodes[path := FileNode(content)];
      r := Ok(());
    }

    /** One step of the extraction loop. */
    method ExtractOne(p: Plan) returns (r: Result<(), WriteError>)
      requires p.path != [] && !p.kind.Special?
      modifies this
      ensures Clear(old(nodes), p) ==> r.Ok?
      ensures r.Ok? ==> forall q :: q in nodes <==> q in old(nodes) || NeedsDirectory(p, q) || q == p.path
      ensures r.Ok? ==> forall q :: q in nodes ==> nodes[q] == NodeAfter(old(nodes), p, q)
    {
      if p.kind.Directory? {
        r := MakeDirectories(p.path);
      } else {
        var parent := p.path[..|p.path| - 1];
        var made := MakeDirectories(parent);
        if made.Err? {
          return made;
        }
        assert forall q :: ProperPrefix(q, p.path) <==> q == parent || ProperPrefix(q, parent);
        r := CreateFile(p.path, p.kind.content);
      }
    }
  }

  /** What stands at q once p was written. */
  function NodeAfter(before: map<Path, Node>, p: Plan, q: Path): Node {
    if q in before then before[q]
    else if q == p.path && p.kind.RegularFile? then FileNode(p.kind.content)
    else DirectoryNode
  }

  predicate ParentIsDirectory(nodes: map<Path, Node>, path: Path)
    requires path != []
  {
    var parent := path[..|path| - 1];
    parent == [] || (parent in nodes && nodes[parent].DirectoryNode?)
  }

  /** Nothing in the tree stands in the plan's way. */
  ghost predicate Clear(nodes: map<Path, Node>, p: Plan) {
    && (forall q :: NeedsDirectory(p, q) && q in nodes ==> nodes[q].DirectoryNode?)
    && (p.kind.RegularFile? ==> p.path !in nodes)
  }

  /** What approval gives the extraction loop. */
  ghost predicate Consistent(plans: seq<Plan>) {
    && Distinct(Paths(plans)) && ParentsAreDirectories(plans)
    && forall p :: p in plans ==> p.path != [] && !p.kind.Special?
  }

  lemma ApprovedIsConsistent(members: seq<Member>, policy: Policy, required: seq<Option<Path>>)
    requires Approved(members, policy, required)
    ensures Consistent(Planned(members))
  {
    PlannedAre(members);
  }

  lemma SamePathSamePlan(plans: seq<Plan>, p: Plan, i: nat)
    requires Distinct(Paths(plans)) && i < |plans| && p in plans[..i]
    ensures p.path != plans[i].path
  {
    var j :| 0 <= j < i && plans[j] == p;
    assert Paths(plans)[j] != Paths(plans)[i];
  }

  /** After the plans before it, nothing stands in the way of the next. */
  lemma NextIsClear(nodes: map<Path, Node>, plans: seq<Plan>, i: nat)
    requires Consistent(plans) && i < |plans| && Materialized(nodes, plans[..i])
    ensures Clear(nodes, plans[i])
  {
    var p := plans[i];
    assert p in plans;
    forall q | NeedsDirectory(p, q) && q in nodes ensures nodes[q].DirectoryNode? {
      if nodes[q].FileNode? {
        var f := Plan(q, RegularFile(nodes[q].content));
        assert f in plans[..i];
        SamePathSamePlan(plans, f, i);
        assert NonDirectoryAt(plans, q);
        assert false;
      }
    }
    if p.kind.RegularFile? && p.path in nodes {
      if nodes[p.path].FileNode? {
        SamePathSamePlan(plans, Plan(p.path, RegularFile(nodes[p.path].content)), i);
      } else {
        var other :| other in plans[..i] && NeedsDirectory(other, p.path);
        SamePathSamePlan(plans, other, i);
        assert NonDirectoryAt(plans, p.path);
        assert false;
      }
    }
  }

  lemma NextMaterializes(before: map<Path, Node>, after: map<Path, Node>, plans: seq<Plan>, i: nat)
    requires Consistent(plans) && i < |plans| && Materialized(before, plans[..i])
    requires forall q :: q in after <==> q in before || NeedsDirectory(plans[i], q) || q == plans[i].path
    requires forall q :: q in after ==> after[q] == NodeAfter(before, plans[i], q)
    ensures Materialized(after, plans[..i + 1])
  {
    hide NeedsDirectory, NodeAfter, Materialized;
    var p := plans[i];
    assert p in plans;
    NextIsClear(before, plans, i);
    assert plans[..i + 1] == plans[..i] + [p];
    DirectoriesAfter(before, after, plans[..i], p);
    FilesAfter(before, after, plans[..i], p);
    TreeHolds(after, plans[..i + 1]);
  }

  lemma TreeHolds(nodes: map<Path, Node>, plans: seq<Plan>)
    requires forall path :: path in nodes && nodes[path].DirectoryNode? <==> SomeoneNeeds(plans, path)
    requires forall path, c :: path in nodes && nodes[path] == FileNode(c) <==> Plan(path, RegularFile(c)) in plans
    ensures Materialized(nodes, plans)
  {
  }

  lemma DirectoriesAfter(before: map<Path, Node>, after: map<Path, Node>, done: seq<Plan>, p: Plan)
    requires Materialized(before, done) && Clear(before, p) && p.path != [] && !p.kind.Special?
    requires forall q :: q in after <==> q in before || NeedsDirectory(p, q) || q == p.path
    requires forall q :: q in after ==> after[q] == NodeAfter(before, p, q)
    ensures forall path :: path in after && after[path].DirectoryNode? <==> SomeoneNeeds(done + [p], path)
  {
    forall path ensures path in after && after[path].DirectoryNode? <==> SomeoneNeeds(done + [p], path) {
      if SomeoneNeeds(done + [p], path) {
        var q :| q in done + [p] && NeedsDirectory(q, path);
        assert q in done ==> SomeoneNeeds(done, path);
      }
      if path in after && after[path].DirectoryNode? {
        if SomeoneNeeds(done, path) {
          var q :| q in done && NeedsDirectory(q, path);
          assert q in done + [p];
        } else {
          assert p in done + [p] && NeedsDirectory(p, path);
        }
      }
    }
  }

  lemma FilesAfter(before: map<Path, Node>, after: map<Path, Node>, done: seq<Plan>, p: Plan)
    requires Materialized(before, done) && Clear(before, p) && p.path != [] && !p.kind.Special?
    requires forall q :: q in after <==> q in before || NeedsDirectory(p, q) || q == p.path
    requires forall q :: q in after ==> after[q] == NodeAfter(before, p, q)
    ensures forall path, c :: path in after && after[path] == FileNode(c) <==> Plan(path, RegularFile(c)) in done + [p]
  {
    hide NeedsDirectory;
  }

  /**
   `extract_validated_tar_members` into an empty destination.  It fails exactly when the archive
   is not approved, before any write; an approved one always runs to completion, and the tree
   then holds exactly the planned files and the directories they need.
   */
  method ExtractValidated(members: seq<Member>, policy: Policy, required: seq<Option<Path>>)
    returns (r: Result<(), Fault>, tree: FileTree)
    ensures r.Ok? <==> Approved(members, policy, required)
    ensures r.Ok? ==> Materialized(tree.nodes, Planned(members))
    ensures r.Err? ==> tree.nodes == map[]
  {
    tree := new FileTree();
    var approved := PrevalidateTarMembers(members, policy, required);
    if approved.Err? {
      return Err(approved.error), tree;
    }
    var plans := approved.value;
    ApprovedIsConsistent(members, policy, required);
    for i := 0 to |plans|
      invariant Materialized(tree.nodes, plans[..i])
    {
      ghost var before := tree.nodes;
      assert plans[i] in plans;
      NextIsClear(before, plans, i);
      var written := tree.ExtractOne(plans[i]);
      NextMaterializes(before, tree.nodes, plans, i);
    }
    assert plans[..|plans|] == plans;
    r := Ok(());
  }

  // ----- the order of the archive

  lemma {:induction false} PlannedConcat(a: seq<Member>, b: seq<Member>)
    requires AllStayWithin(a) && AllStayWithin(b)
    ensures AllStayWithin(a + b) && Planned(a + b) == Planned(a) + Planned(b)
    decreases |b|
  {
    if b == [] {
      assert a + b == a;
    } else {
      var init := b[..|b| - 1];
      PlannedConcat(a, init);
      assert (a + b)[..|a + b| - 1] == a + init;
    }
  }

  lemma MovedOut<T>(a: seq<T>, x: seq<T>, b: seq<T>)
    ensures multiset(a + (x + b)) == multiset(a + b) + multiset(x)
  {
  }

  lemma Cancel<T>(p: multiset<T>, q: multiset<T>, x: multiset<T>)
    requires p + x == q + x
    ensures p == q
  {
    assert p == (p + x) - x && q == (q + x) - x;
  }

  /** Taking the last element of a out of b, wherever it stands there. */
  lemma TakeOut<T>(a: seq<T>, b: seq<T>) returns (b1: seq<T>, b2: seq<T>)
    requires a != [] && multiset(a) == multiset(b)
    ensures b == b1 + ([a[|a| - 1]] + b2) && multiset(a[..|a| - 1]) == multiset(b1 + b2)
  {
    var n := |a| - 1;
    var last := [a[n]];
    assert a == a[..n] + last && a[n] in multiset(a);
    var i :| 0 <= i < |b| && b[i] == a[n];
    b1, b2 := b[..i], b[i + 1..];
    assert b == b1 + (last + b2);
    MovedOut(b1, last, b2);
    Cancel(multiset(a[..n]), multiset(b1 + b2), multiset(last));
  }

  lemma PlannedMovedOut(b1: seq<Member>, x: Member, b2: seq<Member>)
    requires AllStayWithin(b1) && StaysWithin(x) && AllStayWithin(b2)
    ensures AllStayWithin([x]) && AllStayWithin(b1 + b2) && AllStayWithin(b1 + ([x] + b2))
    ensures multiset(Planned(b1 + ([x] + b2))) == multiset(Planned(b1 + b2)) + multiset(Planned([x]))
  {
    PlannedConcat([x], b2);
    PlannedConcat(b1, [x] + b2);
    PlannedConcat(b1, b2);
    hide Planned;
    MovedOut(Planned(b1), Planned([x]), Planned(b2));
  }

  lemma MembersStayWithin(a: seq<Member>, b: seq<Member>)
    requires AllStayWithin(a) && multiset(a) == multiset(b)
    ensures AllStayWithin(b)
  {
    forall m | m in b ensures StaysWithin(m) {
      assert m in multiset(b);
      assert m in a;
    }
  }

  lemma PartsStayWithin(a: seq<Member>, b: seq<Member>)
    ensures AllStayWithin(a + b) <==> AllStayWithin(a) && AllStayWithin(b)
  {
    forall m ensures m in a + b <==> m in a || m in b {}
  }

  lemma {:induction false} PlannedPermutes(a: seq<Member>, b: seq<Member>)
    requires AllStayWithin(a) && multiset(a) == multiset(b)
    ensures AllStayWithin(b) && multiset(Planned(a)) == multiset(Planned(b))
    decreases |a|
  {
    MembersStayWithin(a, b);
    if a == [] {
      assert |b| == |multiset(a)|;
    } else {
      var n := |a| - 1;
      var init, last := a[..n], [a[n]];
      assert a == init + last;
      var b1, b2 := TakeOut(a, b);
      PartsStayWithin(init, last);
      PartsStayWithin(b1, last + b2);
      PartsStayWithin(last, b2);
      PartsStayWithin(b1, b2);
      assert a[n] in a;
      hide Planned, AllStayWithin;
      PlannedMovedOut(b1, a[n], b2);
      PlannedPermutes(init, b1 + b2);
      PlannedConcat(init, last);
    }
  }

  lemma {:induction false} PathsPermute(a: seq<Plan>, b: seq<Plan>)
    requires multiset(a) == multiset(b)
    ensures multiset(Paths(a)) == multiset(Paths(b))
    decreases |a|
  {
    if a == [] {
      assert |b| == |multiset(a)|;
    } else {
      var n := |a| - 1;
      var b1, b2 := TakeOut(a, b);
      PathsPermute(a[..n], b1 + b2);
      assert Paths(a) == Paths(a[..n]) + [a[n].path];
      assert Paths(b) == Paths(b1) + ([a[n].path] + Paths(b2)) && Paths(b1 + b2) == Paths(b1) + Paths(b2);
      hide Paths;
      MovedOut(Paths(b1), [a[n].path], Paths(b2));
    }
  }

  lemma SamePlansSameVerdict(a: seq<Plan>, b: seq<Plan>, required: seq<Option<Path>>)
    requires forall p :: p in a <==> p in b
    ensures ParentsAreDirectories(a) ==> ParentsAreDirectories(b)
    ensures RequiredPresent(a, required) ==> RequiredPresent(b, required)
  {
    forall path | NonDirectoryAt(b, path) ensures NonDirectoryAt(a, path) {
      var q :| q in b && q.path == path && !q.kind.Directory?;
      assert q in a;
    }
  }

  lemma SamePlansSameTree(a: seq<Plan>, b: seq<Plan>, s: map<Path, Node>, t: map<Path, Node>)
    requires forall p :: p in a <==> p in b
    requires Materialized(s, a) && Materialized(t, b)
    ensures s == t
  {
    forall path ensures SomeoneNeeds(a, path) <==> SomeoneNeeds(b, path) {
      if SomeoneNeeds(a, path) {
        var p :| p in a && NeedsDirectory(p, path);
        assert p in b;
      }
      if SomeoneNeeds(b, path) {
        var p :| p in b && NeedsDirectory(p, path);
        assert p in a;
      }
    }
    forall path ensures path in s <==> path in t
      ensures path in s ==> s[path] == t[path]
    {
      if path in s && s[path].FileNode? {
        assert t[path] == FileNode(s[path].content);
      }
      if path in t && t[path].FileNode? {
        assert s[path] == FileNode(t[path].content);
      }
    }
  }

  /** Reordering the archive changes neither the verdict nor the extracted tree. */
  lemma ArchiveOrderIsIrrelevant(
      a: seq<Member>, b: seq<Member>, policy: Policy, required: seq<Option<Path>>, s: map<Path, Node>, t: map<Path, Node>)
    requires multiset(a) == multiset(b) && Approved(a, policy, required)
    ensures Approved(b, policy, required)
    ensures Materialized(s, Planned(a)) && Materialized(t, Planned(b)) ==> s == t
  {
    PlannedPermutes(a, b);
    PathsPermute(Planned(a), Planned(b));
    DistinctSurvivesPermutation(Paths(Planned(a)), Paths(Planned(b)));
    forall m ensures m in b <==> m in a {
      assert m in multiset(b) <==> m in multiset(a);
    }
    forall p ensures p in Planned(b) <==> p in Planned(a) {
      assert p in multiset(Planned(b)) <==> p in multiset(Planned(a));
    }
    SamePlansSameVerdict(Planned(a), Planned(b), required);
    if Materialized(s, Planned(a)) && Materialized(t, Planned(b)) {
      SamePlansSameTree(Planned(a), Planned(b), s, t);
    }
  }
}
