/** Taking something away from a role takes effect: what a principal can reach and do after its parents
    are replaced, or a role is deleted, told from the rows before the call. */
module Revocation {
  import opened Common
  import opened RoleGraph
  import opened RoleStore
  import opened Access

  /** The set cannot be left along an edge that the replacement keeps or writes. A mirrored table drops
      and writes both directions. */
  ghost predicate ClosedAfterReplacing(t: Tables, role: RoleId, inherited: seq<RoleId>, s: set<RoleId>) {
    && (forall a, b :: (a, b) in t.parents && a in s && a != role && (t.mirrored ==> b != role) ==> b in s)
    && (role in s ==> forall p :: p in inherited ==> p in s)
    && (t.mirrored ==> forall p :: p in inherited && p in s ==> role in s)
  }

  lemma ClosedInReplaced(t: Tables, role: RoleId, inherited: seq<RoleId>, s: set<RoleId>)
    requires SetInheritedOutcome(t, role, inherited) == None
    ensures ClosedAfterReplacing(t, role, inherited, s) <==> Closed(After(t, SetInherited(role, inherited)).parents, s)
  {
    var g := After(t, SetInherited(role, inherited)).parents;
    if Closed(g, s) {
      forall a, b | (a, b) in t.parents && a in s && a != role && (t.mirrored ==> b != role) ensures b in s {
        assert (a, b) in g;
      }
      forall p | p in inherited ensures (role in s ==> p in s) && (t.mirrored && p in s ==> role in s) {
        WrittenBothWays(role, SetOf(inherited), p, t.mirrored);
        assert (role, p) in g && (t.mirrored ==> (p, role) in g);
      }
    }
  }

  /** A role is reached after parents were replaced exactly if it is in every set that holds where one
      starts and cannot be left along a kept or a new edge. */
  lemma ReachAfterReplacingIff(t: Tables, role: RoleId, inherited: seq<RoleId>, starts: set<RoleId>, q: RoleId)
    requires Valid(t) && SetInheritedOutcome(t, role, inherited) == None
    ensures ReachableFrom(After(t, SetInherited(role, inherited)).parents, starts, q)
       <==> forall s :: starts <= s && ClosedAfterReplacing(t, role, inherited, s) ==> q in s
  {
    var g := After(t, SetInherited(role, inherited)).parents;
    if ReachableFrom(g, starts, q) {
      forall s | starts <= s && ClosedAfterReplacing(t, role, inherited, s) ensures q in s {
        ClosedInReplaced(t, role, inherited, s);
        var a :| a in starts && Reaches(g, a, q);
        ClosedKeepsReachable(g, s, a, q);
      }
    } else {
      var s := set r | r in t.roles.Keys + starts && ReachableFrom(g, starts, r);
      CallKeepsValid(t, SetInherited(role, inherited));
      ReachableIsClosed(g, t.roles.Keys + starts, starts);
      ClosedInReplaced(t, role, inherited, s);
      forall r | r in starts ensures r in s {
        ReachesSelf(g, r);
      }
      assert q !in s;
    }
  }

  lemma ReachableIsClosed(g: Edges, among: set<RoleId>, starts: set<RoleId>)
    requires forall e :: e in g ==> e.1 in among
    ensures Closed(g, set r | r in among && ReachableFrom(g, starts, r))
  {
    forall a, b | (a, b) in g && a in among && ReachableFrom(g, starts, a) ensures ReachableFrom(g, starts, b) {
      var s :| s in starts && Reaches(g, s, a);
      ReachesEdge(g, a, b);
      ReachesTransitive(g, s, a, b);
    }
  }

  /** So a principal that can no longer get to an Admin role or a covering grant is denied from then on. */
  lemma RevokingTakesEffect(t: Tables, role: RoleId, inherited: seq<RoleId>, starts: set<RoleId>, s: set<RoleId>,
                            operation: string)
    requires Valid(t) && SetInheritedOutcome(t, role, inherited) == None
    requires starts <= s && ClosedAfterReplacing(t, role, inherited, s)
    requires forall r :: r in s && r in t.roles ==> t.roles[r].name != "Admin"
    requires forall r, p :: r in s && (r, p) in t.grants ==> !Covers(ToPermission(t, p), operation)
    ensures !Allowed(After(t, SetInherited(role, inherited)), starts, operation)
  {
    var t' := After(t, SetInherited(role, inherited));
    forall r | ReachableFrom(t'.parents, starts, r) ensures r in s {
      ReachAfterReplacingIff(t, role, inherited, starts, r);
    }
    forall p | p in t'.permissions && Granted(t', starts, p) ensures !Covers(ToPermission(t', p), operation) {
      var r :| (r, p) in t'.grants && ReachableFrom(t'.parents, starts, r);
      assert ToPermission(t', p) == ToPermission(t, p);
    }
  }

  /** A role without parents left gives what it grants itself, and nothing else. */
  lemma RoleWithoutParents(t: Tables, role: RoleId, operation: string)
    requires Valid(t) && SetInheritedOutcome(t, role, []) == None
    ensures Allowed(After(t, SetInherited(role, [])), {role}, operation)
       <==> t.roles[role].name == "Admin" || exists p :: (role, p) in t.grants && Covers(ToPermission(t, p), operation)
  {
    var t' := After(t, SetInherited(role, []));
    ReachesSelf(t'.parents, role);
    if t.roles[role].name == "Admin" {
      assert ReachableFrom(t'.parents, {role}, role);
    } else if p :| (role, p) in t.grants && Covers(ToPermission(t, p), operation) {
      assert ToPermission(t', p) == ToPermission(t, p);
      assert (role, p) in t'.grants && Granted(t', {role}, p);
    } else {
      RevokingTakesEffect(t, role, [], {role}, {role}, operation);
    }
  }

  /** A deleted role is reached by nobody, whoever held it or inherited it. */
  lemma DeletedRoleIsUnreachable(t: Tables, role: RoleId, holder: HolderId)
    requires Valid(t) && DeleteOutcome(t, role) == None
    ensures var t' := After(t, Delete(role));
            && !ReachableFrom(t'.parents, UserStarts(t', holder), role)
            && !ReachableFrom(t'.parents, AccountStarts(t', holder), role)
  {
    var t' := After(t, Delete(role));
    forall a | Reaches(t'.parents, a, role) ensures a == role {
      var via :| Walk(t'.parents, a, via, role);
      OnlyItselfReaches(t'.parents, role, a, via);
    }
  }

  /** Withdrawing a permission from a role: the role itself no longer grants it, unless it is given again. */
  lemma GrantsAfterAssigning(t: Tables, role: RoleId, permissions: seq<PermissionId>, starts: set<RoleId>,
                             p: PermissionId)
    requires Valid(t) && AssignOutcome(t, role, permissions) == None
    ensures Granted(After(t, AssignPermissions(role, permissions)), starts, p)
       <==> || (p in permissions && ReachableFrom(t.parents, starts, role))
            || exists r :: r != role && (r, p) in t.grants && ReachableFrom(t.parents, starts, r)
  {
    var t' := After(t, AssignPermissions(role, permissions));
    if p in permissions {
      GrantWritten(t, role, permissions, p);
    }
    if r :| r != role && (r, p) in t.grants && ReachableFrom(t.parents, starts, r) {
      assert (r, p) in t'.grants;
    }
  }
}
