/** Who may call what: the access decision, and the facts about it that do not depend on
    how the roles were searched. */
module Access {
  import opened Common
  import opened RoleGraph
  import opened RoleStore

  datatype Role = Role(id: RoleId, name: string, system: bool)

  datatype Permission = Permission(id: PermissionId, moduleName: string, action: string, operation: string)

  function ToRole(t: Tables, r: RoleId): Role
    requires r in t.roles
  {
    Role(r, t.roles[r].name, t.roles[r].system)
  }

  function ToPermission(t: Tables, p: PermissionId): Permission
    requires p in t.permissions
  {
    Permission(p, t.permissions[p].moduleName, t.permissions[p].action, t.permissions[p].operation)
  }

  // ----- the decision as the code takes it -----

  predicate HasSuffix(s: string, suffix: string) {
    |suffix| <= |s| && s[|s| - |suffix|..] == suffix
  }

  function TrimSuffix(s: string, suffix: string): string {
    if HasSuffix(s, suffix) then s[..|s| - |suffix|] else s
  }

  predicate Matches(p: Permission, operation: string) {
    if p.moduleName == "system" && p.action == "*" then true
    else if p.operation != "" && p.operation == operation then true
    else p.operation != "" && HasSuffix(p.operation, "*") && TrimSuffix(p.operation, "*") <= operation
  }

  function HasPermission(roles: seq<Role>, permissions: seq<Permission>, operation: string): (allowed: bool)
    ensures allowed <==> (exists i :: 0 <= i < |roles| && roles[i].name == "Admin")
                         || exists i :: 0 <= i < |permissions| && Matches(permissions[i], operation)
    decreases |roles|, |permissions|
  {
    if roles != [] then roles[0].name == "Admin" || HasPermission(roles[1..], permissions, operation)
    else permissions != [] && (Matches(permissions[0], operation) || HasPermission([], permissions[1..], operation))
  }

  // ----- the decision as it is meant -----

  ghost predicate Covers(p: Permission, operation: string) {
    || (p.moduleName == "system" && p.action == "*")
    || (p.operation == operation && operation != "")
    || exists prefix: string :: p.operation == prefix + "*" && prefix <= operation
  }

  ghost predicate ReachableFrom(g: Edges, starts: set<RoleId>, r: RoleId) {
    exists s :: s in starts && Reaches(g, s, r)
  }

  ghost predicate Granted(t: Tables, starts: set<RoleId>, p: PermissionId) {
    exists r :: (r, p) in t.grants && ReachableFrom(t.parents, starts, r)
  }

  ghost predicate Allowed(t: Tables, starts: set<RoleId>, operation: string) {
    || (exists r :: r in t.roles && t.roles[r].name == "Admin" && ReachableFrom(t.parents, starts, r))
    || exists p :: p in t.permissions && Covers(ToPermission(t, p), operation) && Granted(t, starts, p)
  }

  function UserStarts(t: Tables, user: HolderId): set<RoleId> {
    set e | e in t.userRoles && e.0 == user :: e.1
  }

  function AccountStarts(t: Tables, account: HolderId): set<RoleId> {
    set e | e in t.accountRoles && e.0 == account :: e.1
  }

  /** Each role for which `p` holds, exactly once, as stored. */
  ghost predicate ListsRoles(t: Tables, p: RoleId -> bool, roles: seq<Role>) {
    && (forall i, j :: 0 <= i < j < |roles| ==> roles[i].id != roles[j].id)
    && (forall i :: 0 <= i < |roles| ==> roles[i].id in t.roles && p(roles[i].id) && roles[i] == ToRole(t, roles[i].id))
    && (forall r :: r in t.roles && p(r) ==> ToRole(t, r) in roles)
  }

  ghost predicate ListsPermissions(t: Tables, p: PermissionId -> bool, permissions: seq<Permission>) {
    && (forall i, j :: 0 <= i < j < |permissions| ==> permissions[i].id != permissions[j].id)
    && (forall i :: 0 <= i < |permissions| ==> permissions[i].id in t.permissions && p(permissions[i].id)
                                               && permissions[i] == ToPermission(t, permissions[i].id))
    && (forall k :: k in t.permissions && p(k) ==> ToPermission(t, k) in permissions)
  }

  /** The roles reachable from `starts`, and the union of what they grant. */
  ghost predicate IsEffective(t: Tables, starts: set<RoleId>, permissions: seq<Permission>, roles: seq<Role>) {
    && ListsRoles(t, r => ReachableFrom(t.parents, starts, r), roles)
    && ListsPermissions(t, p => Granted(t, starts, p), permissions)
  }

  lemma MatchesIffCovers(p: Permission, operation: string)
    ensures Matches(p, operation) <==> Covers(p, operation)
  {
    if HasSuffix(p.operation, "*") {
      assert p.operation == TrimSuffix(p.operation, "*") + "*";
    }
    if prefix: string :| p.operation == prefix + "*" && prefix <= operation {
      assert TrimSuffix(p.operation, "*") == prefix;
    }
  }

  /** Whatever the row and map order, the decision is the declarative one. */
  lemma DecisionIsDeclarative(t: Tables, starts: set<RoleId>, permissions: seq<Permission>, roles: seq<Role>,
                              operation: string)
    requires Valid(t) && IsEffective(t, starts, permissions, roles)
    ensures HasPermission(roles, permissions, operation) <==> Allowed(t, starts, operation)
  {
    forall p ensures Matches(p, operation) <==> Covers(p, operation) {
      MatchesIffCovers(p, operation);
    }
    if r :| r in t.roles && t.roles[r].name == "Admin" && ReachableFrom(t.parents, starts, r) {
      var i :| 0 <= i < |roles| && roles[i] == ToRole(t, r);
    }
    if p :| p in t.permissions && Covers(ToPermission(t, p), operation) && Granted(t, starts, p) {
      var i :| 0 <= i < |permissions| && permissions[i] == ToPermission(t, p);
    }
  }

  /** Several roles allow exactly what one of them allows. */
  lemma AllowedIffSomeRoleAllows(t: Tables, starts: set<RoleId>, operation: string)
    ensures Allowed(t, starts, operation) <==> exists s :: s in starts && Allowed(t, {s}, operation)
  {
    forall r, s | s in starts && Reaches(t.parents, s, r)
      ensures ReachableFrom(t.parents, {s}, r) && ReachableFrom(t.parents, starts, r)
    {
    }
    if r :| r in t.roles && t.roles[r].name == "Admin" && ReachableFrom(t.parents, starts, r) {
      var s :| s in starts && Reaches(t.parents, s, r);
      assert Allowed(t, {s}, operation);
    }
    if p :| p in t.permissions && Covers(ToPermission(t, p), operation) && Granted(t, starts, p) {
      var r :| (r, p) in t.grants && ReachableFrom(t.parents, starts, r);
      var s :| s in starts && Reaches(t.parents, s, r);
      assert Granted(t, {s}, p);
      assert Allowed(t, {s}, operation);
    }
    if s :| s in starts && Allowed(t, {s}, operation) {
      if p :| p in t.permissions && Covers(ToPermission(t, p), operation) && Granted(t, {s}, p) {
        var r :| (r, p) in t.grants && ReachableFrom(t.parents, {s}, r);
        assert Granted(t, starts, p);
      }
    }
  }

  /** Two principals holding the same roles get the same answer, whatever lists each search returned. */
  lemma SameRolesSameDecision(t: Tables, user: HolderId, account: HolderId,
                              ps: seq<Permission>, rs: seq<Role>, ps': seq<Permission>, rs': seq<Role>,
                              operation: string)
    requires Valid(t) && UserStarts(t, user) == AccountStarts(t, account)
    requires IsEffective(t, UserStarts(t, user), ps, rs) && IsEffective(t, AccountStarts(t, account), ps', rs')
    ensures HasPermission(rs, ps, operation) == HasPermission(rs', ps', operation)
  {
  }

  // ----- monotone -----

  ghost predicate Extends(t: Tables, t': Tables) {
    && t.parents <= t'.parents && t.grants <= t'.grants
    && (forall r :: r in t.roles ==> r in t'.roles && t'.roles[r] == t.roles[r])
    && (forall p :: p in t.permissions ==> p in t'.permissions && t'.permissions[p] == t.permissions[p])
  }

  lemma ReachableFromMonotone(g: Edges, h: Edges, starts: set<RoleId>, starts': set<RoleId>, r: RoleId)
    requires g <= h && starts <= starts' && ReachableFrom(g, starts, r)
    ensures ReachableFrom(h, starts', r)
  {
    var s :| s in starts && Reaches(g, s, r);
    ReachesMonotone(g, h, s, r);
  }

  lemma AllowedMonotone(t: Tables, t': Tables, starts: set<RoleId>, starts': set<RoleId>, operation: string)
    requires Extends(t, t') && starts <= starts' && Allowed(t, starts, operation)
    ensures Allowed(t', starts', operation)
  {
    if r :| r in t.roles && t.roles[r].name == "Admin" && ReachableFrom(t.parents, starts, r) {
      ReachableFromMonotone(t.parents, t'.parents, starts, starts', r);
    } else {
      var p :| p in t.permissions && Covers(ToPermission(t, p), operation) && Granted(t, starts, p);
      var r :| (r, p) in t.grants && ReachableFrom(t.parents, starts, r);
      ReachableFromMonotone(t.parents, t'.parents, starts, starts', r);
      assert Granted(t', starts', p);
      assert ToPermission(t', p) == ToPermission(t, p);
    }
  }

  /** The calls that only add: a new role, or new parents or permissions that include the old ones. */
  ghost predicate OnlyAdds(t: Tables, c: Call) {
    match c
    case Create(_, _, _) => true
    case SetInherited(r, inherited) => ParentsOf(t.parents, r) <= SetOf(inherited)
    case Delete(_) => false
    case AssignPermissions(r, ps) => forall p :: (r, p) in t.grants ==> p in ps
  }

  lemma GrantWritten(t: Tables, r: RoleId, ps: seq<PermissionId>, p: PermissionId)
    requires p in ps
    ensures (r, p) in WithPermissions(t, r, ps).grants
  {
  }

  lemma AddingNeverDenies(t: Tables, c: Call, starts: set<RoleId>, operation: string)
    requires Valid(t) && OnlyAdds(t, c) && Allowed(t, starts, operation)
    ensures Allowed(After(t, c), starts, operation)
  {
    var t' := After(t, c);
    if Outcome(t, c) == None && c.SetInherited? {
      forall e | e in t.parents ensures e in t'.parents {
        assert e == (e.0, e.1);
        if e.0 == c.role {
          assert e.1 in ParentsOf(t.parents, c.role);
          assert e.1 in SetOf(c.inherited);
          WrittenBothWays(c.role, SetOf(c.inherited), e.1, t.mirrored);
        } else if t.mirrored && e.1 == c.role {
          assert (e.1, e.0) in t.parents;
          assert e.0 in ParentsOf(t.parents, c.role);
          assert e.0 in SetOf(c.inherited);
          WrittenBothWays(c.role, SetOf(c.inherited), e.0, t.mirrored);
        }
      }
    }
    if Outcome(t, c) == None && c.AssignPermissions? {
      forall e | e in t.grants ensures e in t'.grants {
        assert e == (e.0, e.1);
        if e.0 == c.role {
          assert (c.role, e.1) in t.grants;
          GrantWritten(t, c.role, c.permissions, e.1);
        }
      }
    }
    AllowedMonotone(t, t', starts, starts, operation);
  }

  // ----- local -----

  /** The two stores agree on every role that can be reached from `starts` in the first. */
  ghost predicate AgreeWhereReachable(t: Tables, t': Tables, starts: set<RoleId>) {
    && t'.roles == t.roles && t'.permissions == t.permissions
    && (forall e :: (e in t.parents || e in t'.parents) && ReachableFrom(t.parents, starts, e.0)
                    ==> e in t.parents && e in t'.parents)
    && (forall e :: (e in t.grants || e in t'.grants) && ReachableFrom(t.parents, starts, e.0)
                    ==> e in t.grants && e in t'.grants)
  }

  lemma {:induction false} WalkCarriesOver(g: Edges, h: Edges, starts: set<RoleId>, a: RoleId,
                                             via: seq<RoleId>, b: RoleId)
    requires forall e :: e in h && ReachableFrom(g, starts, e.0) ==> e in g
    requires ReachableFrom(g, starts, a) && Walk(h, a, via, b)
    ensures ReachableFrom(g, starts, b)
    decreases |via|
  {
    if via != [] {
      assert (a, via[0]) in g;
      var s :| s in starts && Reaches(g, s, a);
      ReachesEdge(g, a, via[0]);
      ReachesTransitive(g, s, a, via[0]);
      WalkCarriesOver(g, h, starts, via[0], via[1..], b);
    }
  }

  /** If edges of `h` leaving what `g` reaches are edges of `g`, then `h` reaches no more than `g`. */
  lemma ReachCarriesOver(g: Edges, h: Edges, starts: set<RoleId>, r: RoleId)
    requires forall e :: e in h && ReachableFrom(g, starts, e.0) ==> e in g
    requires ReachableFrom(h, starts, r)
    ensures ReachableFrom(g, starts, r)
  {
    var s :| s in starts && Reaches(h, s, r);
    var via :| Walk(h, s, via, r);
    ReachesSelf(g, s);
    WalkCarriesOver(g, h, starts, s, via, r);
  }

  lemma AgreementKeepsReach(t: Tables, t': Tables, starts: set<RoleId>, r: RoleId)
    requires AgreeWhereReachable(t, t', starts)
    ensures ReachableFrom(t.parents, starts, r) <==> ReachableFrom(t'.parents, starts, r)
  {
    if ReachableFrom(t'.parents, starts, r) {
      ReachCarriesOver(t.parents, t'.parents, starts, r);
    }
    if ReachableFrom(t.parents, starts, r) {
      forall e | e in t.parents && ReachableFrom(t'.parents, starts, e.0) ensures e in t'.parents {
        ReachCarriesOver(t.parents, t'.parents, starts, e.0);
      }
      ReachCarriesOver(t'.parents, t.parents, starts, r);
    }
  }

  lemma DecisionIsLocal(t: Tables, t': Tables, starts: set<RoleId>, operation: string)
    requires AgreeWhereReachable(t, t', starts)
    ensures Allowed(t, starts, operation) <==> Allowed(t', starts, operation)
  {
    forall r ensures ReachableFrom(t.parents, starts, r) <==> ReachableFrom(t'.parents, starts, r) {
      AgreementKeepsReach(t, t', starts, r);
    }
    forall p ensures Granted(t, starts, p) <==> Granted(t', starts, p) {
      if r :| (r, p) in t.grants && ReachableFrom(t.parents, starts, r) {
        assert (r, p) in t'.grants;
      }
      if r :| (r, p) in t'.grants && ReachableFrom(t'.parents, starts, r) {
        assert (r, p) in t.grants;
      }
    }
    forall p | p in t.permissions ensures ToPermission(t, p) == ToPermission(t', p) {
    }
  }

  /** A call about a role that the principal does not reach leaves alone what it does reach; in a
      mirrored store it also writes edges out of the new parents. */
  lemma ElsewhereAgrees(t: Tables, c: Call, starts: set<RoleId>)
    requires c.SetInherited? || c.AssignPermissions?
    requires !ReachableFrom(t.parents, starts, c.role)
    requires t.mirrored && c.SetInherited? ==> forall p :: p in c.inherited ==> !ReachableFrom(t.parents, starts, p)
    ensures AgreeWhereReachable(t, After(t, c), starts)
  {
    var t' := After(t, c);
    forall e | e in t.parents && ReachableFrom(t.parents, starts, e.0) ensures e in t'.parents {
      assert e == (e.0, e.1);
      if e.1 == c.role {
        var s :| s in starts && Reaches(t.parents, s, e.0);
        ReachesEdge(t.parents, e.0, e.1);
        ReachesTransitive(t.parents, s, e.0, e.1);
        assert false;
      }
    }
  }

  /** So it changes no decision for that principal; ReachUnchangedIff says when the condition on new
      parents is needed. */
  lemma ChangeElsewhereIsInvisible(t: Tables, c: Call, starts: set<RoleId>, operation: string)
    requires c.SetInherited? || c.AssignPermissions?
    requires !ReachableFrom(t.parents, starts, c.role)
    requires t.mirrored && c.SetInherited? ==> forall p :: p in c.inherited ==> !ReachableFrom(t.parents, starts, p)
    ensures Allowed(t, starts, operation) <==> Allowed(After(t, c), starts, operation)
  {
    ElsewhereAgrees(t, c, starts);
    DecisionIsLocal(t, After(t, c), starts, operation);
  }

  /** Roles the principal reaches, none of them `r`, are reached without the edges of `r`. */
  lemma {:induction false} WalkAvoids(g: Edges, h: Edges, starts: set<RoleId>, r: RoleId, a: RoleId,
                                         via: seq<RoleId>, b: RoleId)
    requires !ReachableFrom(g, starts, r) && ReachableFrom(g, starts, a) && Walk(g, a, via, b)
    requires forall e :: e in g && e.0 != r && e.1 != r ==> e in h
    ensures Walk(h, a, via, b)
    decreases |via|
  {
    if via != [] {
      var s :| s in starts && Reaches(g, s, a);
      ReachesEdge(g, a, via[0]);
      ReachesTransitive(g, s, a, via[0]);
      assert (a, via[0]) in h;
      WalkAvoids(g, h, starts, r, via[0], via[1..], b);
    }
  }

  lemma NewParentGivesReach(t: Tables, r: RoleId, inherited: seq<RoleId>, starts: set<RoleId>, p: RoleId)
    requires t.mirrored && !ReachableFrom(t.parents, starts, r) && p in inherited && ReachableFrom(t.parents, starts, p)
    ensures ReachableFrom(WithInherited(t, r, inherited).parents, starts, r)
  {
    var h := WithInherited(t, r, inherited).parents;
    var s :| s in starts && Reaches(t.parents, s, p);
    var via :| Walk(t.parents, s, via, p);
    ReachesSelf(t.parents, s);
    WalkAvoids(t.parents, h, starts, r, s, via, p);
    WrittenBothWays(r, SetOf(inherited), p, true);
    ReachesEdge(h, p, r);
    ReachesTransitive(h, s, p, r);
  }

  /** What an accepted change of the parents of an unreachable role does to what the principal
      reaches: nothing in a directed store; in a mirrored one nothing exactly if no new parent is reachable. */
  lemma ReachUnchangedIff(t: Tables, r: RoleId, inherited: seq<RoleId>, starts: set<RoleId>)
    requires Outcome(t, SetInherited(r, inherited)) == None && !ReachableFrom(t.parents, starts, r)
    ensures (forall q :: ReachableFrom(After(t, SetInherited(r, inherited)).parents, starts, q)
                         <==> ReachableFrom(t.parents, starts, q))
            <==> !(t.mirrored && exists p :: p in inherited && ReachableFrom(t.parents, starts, p))
  {
    var c := SetInherited(r, inherited);
    if p :| t.mirrored && p in inherited && ReachableFrom(t.parents, starts, p) {
      NewParentGivesReach(t, r, inherited, starts, p);
    } else {
      ElsewhereAgrees(t, c, starts);
      forall q ensures ReachableFrom(After(t, c).parents, starts, q) <==> ReachableFrom(t.parents, starts, q) {
        AgreementKeepsReach(t, After(t, c), starts, q);
      }
    }
  }

  /** Role 2 grants "x"; a principal holding only role 1 is denied it. */
  const TWO_ROLES := EMPTY_MIRRORED.(
    roles := map[1 := RoleRow("base", false), 2 := RoleRow("ops", false)],
    permissions := map[1 := PermissionRow("m", "read", "x")],
    grants := {(2, 1)},
    nextRole := 3)

  lemma TwoRolesDenied()
    ensures !ReachableFrom(TWO_ROLES.parents, {1}, 2) && ReachableFrom(TWO_ROLES.parents, {1}, 1)
    ensures !Allowed(TWO_ROLES, {1}, "x")
  {
    var t := TWO_ROLES;
    forall r | ReachableFrom(t.parents, {1}, r) ensures r == 1 {
      var via :| Walk(t.parents, 1, via, r);
    }
    ReachesSelf(t.parents, 1);
    assert "base" != "Admin" by { assert |"base"| != |"Admin"|; }
    assert !Granted(t, {1}, 1);
  }

  /** In the mirrored store, making role 1 a parent of role 2 lets the holder of role 1 do what role 2 may. */
  lemma MirroredChangeElsewhereAllows()
    ensures Valid(TWO_ROLES) && !ReachableFrom(TWO_ROLES.parents, {1}, 2)
    ensures !Allowed(TWO_ROLES, {1}, "x") && Allowed(After(TWO_ROLES, SetInherited(2, [1])), {1}, "x")
  {
    var t := TWO_ROLES;
    TwoRolesDenied();
    NoErrorMeansNoneReaches(t.parents, 2, [1]);
    assert forall r :: Reaches(t.parents, 1, r) ==> ReachableFrom(t.parents, {1}, r);
    assert SetOf<RoleId>([1]) == {1};
    NewParentGivesReach(t, 2, [1], {1}, 1);
    var t' := After(t, SetInherited(2, [1]));
    assert Granted(t', {1}, 1) && Covers(ToPermission(t', 1), "x");
  }
}
