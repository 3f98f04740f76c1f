/**
 `propagate_roles` of `scripts/breaking_schema_check.py`: request and response roles spread along
 the reference graph until nothing changes.
 */
module RolePropagation {
  import opened Sorting

  type File = Text
  type Role = Text
  type Roles = map<File, set<Role>>
  type Graph = map<File, set<File>>

  predicate HasRole(roles: Roles, f: File, r: Role) {
    f in roles && r in roles[f]
  }

  /** A walk along references. */
  ghost predicate IsWalk(graph: Graph, p: seq<File>) {
    p != [] && forall i :: 0 <= i < |p| - 1 ==> p[i] in graph && p[i + 1] in graph[p[i]]
  }

  ghost predicate Leads(direct: Roles, graph: Graph, p: seq<File>, t: File, r: Role) {
    IsWalk(graph, p) && p[|p| - 1] == t && HasRole(direct, p[0], r)
  }

  /** Some file with direct role r reaches t. */
  ghost predicate Inherits(direct: Roles, graph: Graph, t: File, r: Role) {
    exists p :: Leads(direct, graph, p, t, r)
  }

  /** The roles handed out so far are all justified, and hold the direct ones. */
  ghost predicate Between(direct: Roles, graph: Graph, roles: Roles) {
    && (forall f, r :: HasRole(direct, f, r) ==> HasRole(roles, f, r))
    && (forall t, r :: HasRole(roles, t, r) ==> Inherits(direct, graph, t, r))
  }

  /** Whatever f has, t has. */
  ghost predicate EdgeClosed(roles: Roles, f: File, t: File) {
    forall r :: HasRole(roles, f, r) ==> HasRole(roles, t, r)
  }

  /** No file loses a role. */
  ghost predicate Grows(a: Roles, b: Roles) {
    forall f, r :: HasRole(a, f, r) ==> HasRole(b, f, r)
  }

  ghost predicate SameRoles(a: Roles, b: Roles) {
    forall f, r :: HasRole(a, f, r) <==> HasRole(b, f, r)
  }

  lemma DirectInherits(direct: Roles, graph: Graph)
    ensures forall f, r :: HasRole(direct, f, r) ==> Inherits(direct, graph, f, r)
  {
    forall f, r | HasRole(direct, f, r) ensures Inherits(direct, graph, f, r) {
      assert Leads(direct, graph, [f], f, r);
    }
  }

  lemma EdgeInherits(direct: Roles, graph: Graph, f: File, t: File, r: Role)
    requires f in graph && t in graph[f] && Inherits(direct, graph, f, r)
    ensures Inherits(direct, graph, t, r)
  {
    var p :| Leads(direct, graph, p, f, r);
    var q := p + [t];
    forall i | 0 <= i < |q| - 1 ensures q[i] in graph && q[i + 1] in graph[q[i]] {
      assert i < |p| - 1 ==> q[i] == p[i] && q[i + 1] == p[i + 1];
    }
    assert Leads(direct, graph, q, t, r);
  }

  /** Roles closed along every edge are closed along every walk. */
  lemma {:induction false} ClosedAlongWalk(graph: Graph, roles: Roles, p: seq<File>, r: Role)
    requires IsWalk(graph, p) && HasRole(roles, p[0], r)
    requires forall f, t :: f in graph && t in graph[f] ==> EdgeClosed(roles, f, t)
    ensures HasRole(roles, p[|p| - 1], r)
    decreases |p|
  {
    if |p| > 1 {
      var q := p[..|p| - 1];
      ClosedAlongWalk(graph, roles, q, r);
      assert EdgeClosed(roles, p[|p| - 2], p[|p| - 1]);
    }
  }

  lemma ClosedIsLeast(direct: Roles, graph: Graph, roles: Roles)
    requires Between(direct, graph, roles)
    requires forall f, t :: f in graph && t in graph[f] ==> EdgeClosed(roles, f, t)
    ensures forall t, r :: HasRole(roles, t, r) <==> Inherits(direct, graph, t, r)
  {
    forall t, r | Inherits(direct, graph, t, r) ensures HasRole(roles, t, r) {
      var p :| Leads(direct, graph, p, t, r);
      ClosedAlongWalk(graph, roles, p, r);
    }
  }

  // ----- termination: pairs still missing

  /** Every file and role that can ever meet. */
  ghost function AllPairs(direct: Roles, graph: Graph): set<(File, Role)> {
    set f, g, r | g in direct && r in direct[g] && f in Files(direct, graph) :: (f, r)
  }

  ghost function Files(direct: Roles, graph: Graph): set<File> {
    direct.Keys + (set f, t | f in graph && t in graph[f] :: t)
  }

  ghost function Pairs(roles: Roles): set<(File, Role)> {
    set f, r | f in roles && r in roles[f] :: (f, r)
  }

  lemma PairsStayInside(direct: Roles, graph: Graph, roles: Roles)
    requires Between(direct, graph, roles)
    ensures Pairs(roles) <= AllPairs(direct, graph)
  {
    forall f, r | (f, r) in Pairs(roles) ensures (f, r) in AllPairs(direct, graph) {
      assert HasRole(roles, f, r);
      var p :| Leads(direct, graph, p, f, r);
      assert |p| > 1 ==> p[|p| - 2] in graph && p[|p| - 1] in graph[p[|p| - 2]];
      assert f in Files(direct, graph) && r in direct[p[0]];
    }
  }

  lemma MorePairs(direct: Roles, graph: Graph, a: Roles, b: Roles)
    requires Between(direct, graph, a) && Between(direct, graph, b)
    requires Grows(a, b) && !SameRoles(a, b)
    ensures Missing(direct, graph, b) < Missing(direct, graph, a)
  {
    PairsStayInside(direct, graph, b);
    var f, r :| HasRole(b, f, r) && !HasRole(a, f, r);
    var missingA, missingB := AllPairs(direct, graph) - Pairs(a), AllPairs(direct, graph) - Pairs(b);
    assert (f, r) in Pairs(b) && (f, r) in missingA && (f, r) !in missingB;
    forall x | x in missingB ensures x in missingA {
      assert x in Pairs(a) ==> HasRole(a, x.0, x.1);
    }
    ProperSubsetIsSmaller(missingB, missingA);
  }

  lemma ProperSubsetIsSmaller<T>(a: set<T>, b: set<T>)
    requires a < b
    ensures |a| < |b|
  {
    assert b == a + (b - a);
  }

  lemma SameSizeIsSame<T>(a: set<T>, b: set<T>)
    requires a <= b && |a| == |b|
    ensures a == b
  {
    if a < b {
      ProperSubsetIsSmaller(a, b);
    }
  }

  /** Pairs that may still be added. */
  ghost function Missing(direct: Roles, graph: Graph, roles: Roles): nat {
    |AllPairs(direct, graph) - Pairs(roles)|
  }

  lemma SameRolesSamePairs(a: Roles, b: Roles)
    requires SameRoles(a, b)
    ensures Pairs(a) == Pairs(b)
    ensures forall f, t :: EdgeClosed(a, f, t) ==> EdgeClosed(b, f, t)
  {
    forall x ensures x in Pairs(a) <==> x in Pairs(b) {
      assert HasRole(a, x.0, x.1) <==> HasRole(b, x.0, x.1);
    }
    forall f, t | EdgeClosed(a, f, t) ensures EdgeClosed(b, f, t) {
      forall r | HasRole(b, f, r) ensures HasRole(b, t, r) {
        assert HasRole(a, f, r);
      }
    }
  }

  /** Two growths make one, which changes nothing exactly when neither does. */
  lemma GrowthSteps(a: Roles, b: Roles, c: Roles)
    ensures Grows(a, a) && SameRoles(a, a)
    ensures Grows(a, b) && Grows(b, c) ==> Grows(a, c) && (SameRoles(a, c) <==> SameRoles(a, b) && SameRoles(b, c))
  {
    hide HasRole;
  }

  lemma NothingToSpread(roles: Roles, f: File)
    requires f !in roles
    ensures forall t :: EdgeClosed(roles, f, t)
  {
  }

  // ----- the propagation

  /** `roles[t] |= roles[f]` for one edge; a file without an entry has no roles yet. */
  method SpreadAlongEdge(direct: Roles, graph: Graph, roles: Roles, f: File, t: File) returns (after: Roles, grew: bool)
    requires Between(direct, graph, roles) && f in graph && t in graph[f] && f in roles
    ensures Between(direct, graph, after) && EdgeClosed(after, f, t) && f in after
    ensures Grows(roles, after)
    ensures grew <==> !SameRoles(roles, after)
    ensures forall g :: g in roles ==> g in after
  {
    hide Between, Inherits;
    var before := if t in roles then roles[t] else {};
    after := roles[t := before + roles[f]];
    grew := |after[t]| != |before|;
    EdgeIsJustified(direct, graph, roles, f, t, after);
    if grew {
      assert after[t] != before;
      var r :| r in after[t] && r !in before;
      assert HasRole(after, t, r) && !HasRole(roles, t, r);
    } else {
      SameSizeIsSame(before, after[t]);
    }
  }

  lemma EdgeIsJustified(direct: Roles, graph: Graph, roles: Roles, f: File, t: File, after: Roles)
    requires Between(direct, graph, roles) && f in graph && t in graph[f] && f in roles
    requires after == roles[t := (if t in roles then roles[t] else {}) + roles[f]]
    ensures Between(direct, graph, after)
  {
    hide Inherits;
    forall r | HasRole(after, t, r) ensures Inherits(direct, graph, t, r) {
      if !HasRole(roles, t, r) {
        assert HasRole(roles, f, r);
        EdgeInherits(direct, graph, f, t, r);
      }
    }
    forall g, r | HasRole(after, g, r) && g != t ensures Inherits(direct, graph, g, r) {
      assert HasRole(roles, g, r);
    }
  }

  /** One pass over the graph in any order; `changed` tells whether some file gained a role. */
  method SpreadOnce(direct: Roles, graph: Graph, roles: Roles) returns (after: Roles, changed: bool)
    requires Between(direct, graph, roles)
    ensures Between(direct, graph, after)
    ensures Grows(roles, after)
    ensures changed <==> !SameRoles(roles, after)
    ensures !changed ==> forall f, t :: f in graph && t in graph[f] ==> EdgeClosed(after, f, t)
  {
    hide Between, HasRole, Grows, SameRoles, EdgeClosed;
    after, changed := roles, false;
    GrowthSteps(roles, roles, roles);
    var rest := graph.Keys;
    while rest != {}
      invariant rest <= graph.Keys && Between(direct, graph, after)
      invariant Grows(roles, after)
      invariant changed <==> !SameRoles(roles, after)
      invariant !changed ==> forall f, t :: f in graph && f !in rest && t in graph[f] ==> EdgeClosed(after, f, t)
      decreases rest
    {
      var f :| f in rest;
      rest := rest - {f};
      if f in after {
        var targets := graph[f];
        while targets != {}
          invariant targets <= graph[f] && Between(direct, graph, after) && f in after
          invariant Grows(roles, after)
          invariant changed <==> !SameRoles(roles, after)
          invariant !changed ==> forall g, t :: g in graph && g !in rest && t in graph[g] && (g != f || t !in targets) ==>
                                   EdgeClosed(after, g, t)
          decreases targets
        {
          var t :| t in targets;
          targets := targets - {t};
          ghost var was := after;
          var grew;
          after, grew := SpreadAlongEdge(direct, graph, after, f, t);
          GrowthSteps(roles, was, after);
          changed := changed || grew;
          if !grew {
            SameRolesSamePairs(was, after);
          }
        }
      } else {
        NothingToSpread(after, f);
      }
    }
  }

  /**
   `propagate_roles` computes the least fixpoint: on exit a file has a role exactly when some
   file with that direct role reaches it, whatever the order of the passes and with cycles.
   */
  method PropagateRoles(direct: Roles, graph: Graph) returns (roles: Roles)
    ensures forall t, r :: HasRole(roles, t, r) <==> Inherits(direct, graph, t, r)
  {
    roles := direct;
    DirectInherits(direct, graph);
    var changed := true;
    while changed
      invariant Between(direct, graph, roles)
      invariant !changed ==> forall f, t :: f in graph && t in graph[f] ==> EdgeClosed(roles, f, t)
      decreases Missing(direct, graph, roles), changed
    {
      hide Between, Missing, AllPairs, Pairs, HasRole, EdgeClosed;
      ghost var was := roles;
      roles, changed := SpreadOnce(direct, graph, roles);
      if changed {
        MorePairs(direct, graph, was, roles);
      } else {
        SameRolesSamePairs(was, roles);
        assert Missing(direct, graph, was) == Missing(direct, graph, roles);
      }
    }
    ClosedIsLeast(direct, graph, roles);
  }
}
