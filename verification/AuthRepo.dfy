/** The repository and the two searches over the inheritance graph, in the imperative form they
    have: a visited map and output lists that every recursive call shares and updates. */
module AuthRepo {
  import opened Common
  import opened RoleGraph
  import opened RoleStore
  import opened Access

  /** The visited map of one cycle check. */
  class Visited {
    var ids: set<RoleId>

    constructor ()
      ensures ids == {}
    {
      ids := {};
    }
  }

  /** The visited map, the permission map and the role list of one collection. */
  class Collected {
    var visited: set<RoleId>
    var permissions: map<PermissionId, Permission>
    var roles: seq<Role>

    constructor ()
      ensures visited == {} && permissions == map[] && roles == []
    {
      visited, permissions, roles := {}, map[], [];
    }

    /** The lists hold what the visited roles are and grant, each role once. */
    ghost predicate Tallies(t: Tables)
      reads this
    {
      RolesTally(t, visited, roles) && PermissionsTally(t, visited, permissions)
    }
  }

  ghost predicate RolesTally(t: Tables, visited: set<RoleId>, roles: seq<Role>) {
    && visited <= t.roles.Keys
    && (forall i, j :: 0 <= i < j < |roles| ==> roles[i].id != roles[j].id)
    && (forall i :: 0 <= i < |roles| ==> roles[i].id in visited && roles[i] == ToRole(t, roles[i].id))
    && (forall r :: r in visited ==> ToRole(t, r) in roles)
  }

  ghost predicate PermissionsTally(t: Tables, visited: set<RoleId>, permissions: map<PermissionId, Permission>) {
    && (forall p :: p in permissions ==> p in t.permissions && permissions[p] == ToPermission(t, p))
    && (forall p :: p in permissions ==> exists r :: r in visited && (r, p) in t.grants)
    && (forall r, p :: r in visited && (r, p) in t.grants ==> p in permissions)
  }

  datatype AuthError = UserNotFound | UserDisabled | PermissionDenied

  datatype AuthContext = AuthContext(holder: HolderId, permissions: seq<Permission>, roles: seq<Role>)

  class Repo {
    var db: Tables

    constructor (t: Tables)
      ensures db == t
    {
      db := t;
    }

    // ----- the cycle check -----

    /** From an empty visited map the answer is reachability, on any graph, cyclic or not. `ids` bounds
        the search; a call made midway only promises that what it added leads nowhere new. */
    method RoleReaches(from: RoleId, target: RoleId, visited: Visited, ghost ids: set<RoleId>) returns (reaches: bool)
      requires from in ids && forall e :: e in db.parents ==> e.1 in ids
      requires target !in visited.ids
      modifies visited
      ensures old(visited.ids) <= visited.ids && target !in visited.ids
      ensures reaches ==> Reaches(db.parents, from, target)
      ensures !reaches ==> from in visited.ids && ClosedSince(db.parents, old(visited.ids), visited.ids)
      ensures old(visited.ids) == {} ==> (reaches <==> Reaches(db.parents, from, target))
      decreases ids - visited.ids
    {
      if from == target {
        ReachesSelf(db.parents, from);
        return true;
      }
      if from in visited.ids {
        return false;
      }
      visited.ids := visited.ids + {from};
      var parents := InSomeOrder(ParentsOf(db.parents, from));
      for i := 0 to |parents|
        invariant old(visited.ids) + {from} <= visited.ids && target !in visited.ids
        invariant forall k :: 0 <= k < i ==> parents[k] in visited.ids
        invariant ClosedSince(db.parents, old(visited.ids) + {from}, visited.ids)
      {
        assert parents[i] in ParentsOf(db.parents, from);
        assert (from, parents[i]) in db.parents;
        var up := RoleReaches(parents[i], target, visited, ids);
        if up {
          ReachesStep(db.parents, from, parents[i], target);
          return true;
        }
      }
      forall b | (from, b) in db.parents ensures b in visited.ids {
        assert b in ParentsOf(db.parents, from);
        assert b in parents;
      }
      if old(visited.ids) == {} && Reaches(db.parents, from, target) {
        ClosedKeepsReachable(db.parents, visited.ids, from, target);
      }
      return false;
    }

    method ValidateRoleInheritance(role: RoleId, parents: seq<RoleId>) returns (error: Option<RoleError>)
      ensures error == InheritanceError(db.parents, role, parents)
      ensures error == None <==> role == 0 || forall p :: p in parents ==> !Reaches(db.parents, p, role)
      ensures error.Some? ==> exists i :: FirstOffender(db.parents, role, parents, i)
                                          && error.value == if parents[i] == role then SelfInheritance
                                                            else InheritanceCycle
    {
      NoErrorMeansNoneReaches(db.parents, role, parents);
      if InheritanceError(db.parents, role, parents).Some? {
        ghost var first := FirstOffenderIsReported(db.parents, role, parents);
      }
      for i := 0 to |parents|
        invariant InheritanceError(db.parents, role, parents) == InheritanceError(db.parents, role, parents[i..])
      {
        if role != 0 && parents[i] == role {
          return Some(SelfInheritance);
        }
        if role != 0 {
          var visited := new Visited();
          var hasCycle := RoleReaches(parents[i], role, visited, {parents[i]} + set e | e in db.parents :: e.1);
          if hasCycle {
            return Some(InheritanceCycle);
          }
        }
      }
      return None;
    }

    // ----- calls that change the tables -----

    /** Validation finds nothing for a role that has no identifier yet. */
    method CreateRole(name: string, permissions: seq<PermissionId>, inherited: seq<RoleId>)
      returns (result: Result<RoleId, RoleError>)
      modifies this
      ensures db == After(old(db), Create(name, permissions, inherited))
      ensures result == if name == "" then Err(InvalidName)
                        else if || (exists r :: r in old(db.roles) && old(db.roles)[r].name == name)
                                || (exists p :: p in permissions && p !in old(db.permissions))
                                || (exists p :: p in inherited && p !in old(db.roles) && p != old(db.nextRole))
                             then Err(Conflict) else Ok(old(db.nextRole))
      ensures result.Err? ==> db == old(db)
      ensures result.Ok? ==>
                var role := result.value;
                && db == old(db).(roles := old(db.roles)[role := RoleRow(name, false)],
                                  grants := db.grants, parents := db.parents, nextRole := role + 1)
                && (forall r, p :: (r, p) in db.grants <==> (r, p) in old(db.grants) || (r == role && p in permissions))
                && (forall r, p :: (r, p) in db.parents <==>
                                   || (r, p) in old(db.parents) || (r == role && p in inherited)
                                   || (db.mirrored && p == role && r in inherited))
    {
      var error := ValidateRoleInheritance(0, inherited);
      assert error == None;
      if name == "" {
        return Err(InvalidName);
      }
      if exists r :: r in db.roles && db.roles[r].name == name {
        return Err(Conflict);
      }
      var role := db.nextRole;
      var roles := db.roles[role := RoleRow(name, false)];
      if !(SetOf(permissions) <= db.permissions.Keys) || !(SetOf(inherited) <= roles.Keys) {
        assert roles.Keys == db.roles.Keys + {role};
        if !(SetOf(permissions) <= db.permissions.Keys) {
          ghost var missing := MissingFrom(permissions, db.permissions.Keys);
        } else {
          ghost var missing := MissingFrom(inherited, roles.Keys);
        }
        return Err(Conflict);
      }
      assert roles.Keys == db.roles.Keys + {role};
      assert forall p :: p in permissions ==> p in SetOf(permissions);
      assert forall p :: p in inherited ==> p in SetOf(inherited);
      db := db.(roles := roles,
                grants := db.grants + (set p | p in permissions :: (role, p)),
                parents := db.parents + Written(role, SetOf(inherited), db.mirrored),
                nextRole := role + 1);
      return Ok(role);
    }

    method SetRoleInheritances(role: RoleId, inherited: seq<RoleId>) returns (error: Option<RoleError>)
      modifies this
      ensures db == After(old(db), SetInherited(role, inherited))
      ensures error == None <==>
              && (role == 0 || forall p :: p in inherited ==> !Reaches(old(db.parents), p, role))
              && role in old(db.roles) && forall p :: p in inherited ==> p in old(db.roles)
      ensures error.Some? ==> db == old(db)
      ensures error == Some(WriteRejected) || error == InheritanceError(old(db.parents), role, inherited)
      ensures error == None ==>
                && db == old(db).(parents := db.parents)
                && (forall r, p :: (r, p) in db.parents <==>
                                   if !db.mirrored then if r == role then p in inherited else (r, p) in old(db.parents)
                                   else if r == role || p == role then (r == role && p in inherited)
                                                                       || (p == role && r in inherited)
                                   else (r, p) in old(db.parents))
    {
      error := ValidateRoleInheritance(role, inherited);
      if error.Some? {
        return;
      }
      if role !in db.roles || !(SetOf(inherited) <= db.roles.Keys) {
        if role in db.roles {
          ghost var missing := MissingFrom(inherited, db.roles.Keys);
        }
        return Some(WriteRejected);
      }
      var kept := Cleared(db.parents, role, db.mirrored);
      db := db.(parents := kept + Written(role, SetOf(inherited), db.mirrored));
    }

    method DeleteRole(role: RoleId) returns (error: Option<RoleError>)
      modifies this
      ensures db == After(old(db), Delete(role))
      ensures error == if role !in old(db.roles) then Some(NotFound)
                       else if old(db.roles)[role].system || old(db.roles)[role].name == "Admin"
                       then Some(SystemProtected) else None
      ensures error.Some? ==> db == old(db)
      ensures error == None ==>
                && db == old(db).(roles := db.roles, parents := db.parents, grants := db.grants,
                                  userRoles := db.userRoles, accountRoles := db.accountRoles)
                && db.roles == old(db.roles) - {role}
                && (forall r, p :: (r, p) in db.parents <==> (r, p) in old(db.parents) && r != role && p != role)
                && (forall r, p :: (r, p) in db.grants <==> (r, p) in old(db.grants) && r != role)
                && (forall u, r :: (u, r) in db.userRoles <==> (u, r) in old(db.userRoles) && r != role)
                && (forall a, r :: (a, r) in db.accountRoles <==> (a, r) in old(db.accountRoles) && r != role)
    {
      if role !in db.roles {
        return Some(NotFound);
      }
      if db.roles[role].system || db.roles[role].name == "Admin" {
        return Some(SystemProtected);
      }
      db := Deleted(db, role);
      return None;
    }

    method AssignRolePermissions(role: RoleId, permissions: seq<PermissionId>) returns (error: Option<RoleError>)
      modifies this
      ensures db == After(old(db), AssignPermissions(role, permissions))
      ensures error == if role in old(db.roles) && (forall p :: p in permissions ==> p in old(db.permissions))
                       then None else Some(WriteRejected)
      ensures error.Some? ==> db == old(db)
      ensures error == None ==>
                && db == old(db).(grants := db.grants)
                && (forall r, p :: (r, p) in db.grants <==> if r == role then p in permissions
                                                            else (r, p) in old(db.grants))
    {
      if role !in db.roles || !(SetOf(permissions) <= db.permissions.Keys) {
        if role in db.roles {
          ghost var missing := MissingFrom(permissions, db.permissions.Keys);
        }
        return Some(WriteRejected);
      }
      var kept := set e | e in db.grants && e.0 != role;
      db := db.(grants := kept + (set p | p in permissions :: (role, p)));
      return None;
    }

    /** Refused when a role does not exist. */
    method SetAccountRoles(account: HolderId, roles: seq<RoleId>) returns (accepted: bool)
      requires Valid(db)
      modifies this
      ensures Valid(db) && accepted == (SetOf(roles) <= old(db).roles.Keys)
      ensures db == if accepted then WithAccountRoles(old(db), account, roles) else old(db)
      ensures db == old(db).(accountRoles := db.accountRoles)
      ensures accepted ==> forall a, r :: (a, r) in db.accountRoles <==>
                                          if a == account then r in roles else (a, r) in old(db.accountRoles)
      ensures accepted ==> AccountStarts(db, account) == SetOf(roles)
      ensures forall other :: other != account ==> AccountStarts(db, other) == AccountStarts(old(db), other)
      ensures forall user :: UserStarts(db, user) == UserStarts(old(db), user)
    {
      if !(SetOf(roles) <= db.roles.Keys) {
        return false;
      }
      var others := set e | e in db.accountRoles && e.0 != account;
      db := db.(accountRoles := others + (set r | r in roles :: (account, r)));
      AccountRolesReplaced(old(db), account, roles);
      return true;
    }

    // ----- collecting what a principal holds -----

    method CollectRolePermissions(role: RoleId, out: Collected)
      requires Valid(db) && role in db.roles && out.Tallies(db)
      modifies out
      ensures out.Tallies(db)
      ensures old(out.visited) <= out.visited && role in out.visited
      ensures ClosedSince(db.parents, old(out.visited), out.visited)
      ensures forall r :: r in out.visited && r !in old(out.visited) ==> Reaches(db.parents, role, r)
      decreases db.roles.Keys - out.visited
    {
      if role in out.visited {
        return;
      }
      out.visited := out.visited + {role};
      RoleAppended(db, old(out.visited), out.roles, role);
      out.roles := out.roles + [ToRole(db, role)];
      assert out.visited - {role} == old(out.visited);
      AddPermissions(role, out);
      ReachesSelf(db.parents, role);
      var parents := InSomeOrder(ParentsOf(db.parents, role));
      for i := 0 to |parents|
        invariant out.Tallies(db)
        invariant old(out.visited) + {role} <= out.visited
        invariant forall k :: 0 <= k < i ==> parents[k] in out.visited
        invariant ClosedSince(db.parents, old(out.visited) + {role}, out.visited)
        invariant forall r :: r in out.visited && r !in old(out.visited) ==> Reaches(db.parents, role, r)
      {
        assert parents[i] in ParentsOf(db.parents, role);
        assert (role, parents[i]) in db.parents;
        ghost var before := out.visited;
        CollectRolePermissions(parents[i], out);
        forall r | r in out.visited && r !in before ensures Reaches(db.parents, role, r) {
          ReachesStep(db.parents, role, parents[i], r);
        }
      }
      forall b | (role, b) in db.parents ensures b in out.visited {
        assert b in ParentsOf(db.parents, role);
        assert b in parents;
      }
    }

    /** Adds what the role just marked grants. */
    method AddPermissions(role: RoleId, out: Collected)
      requires Valid(db) && role in out.visited && PermissionsTally(db, out.visited - {role}, out.permissions)
      modifies out`permissions
      ensures PermissionsTally(db, out.visited, out.permissions)
    {
      ghost var granted := set e | e in db.grants && e.0 == role :: e.1;
      var rows := InSomeOrder(set e | e in db.grants && e.0 == role :: e.1);
      for i := 0 to |rows|
        invariant forall p :: p in out.permissions ==> p in db.permissions && out.permissions[p] == ToPermission(db, p)
        invariant forall p :: p in out.permissions ==> exists r :: r in out.visited && (r, p) in db.grants
        invariant forall p :: p in old(out.permissions) ==> p in out.permissions
        invariant forall k :: 0 <= k < i ==> rows[k] in out.permissions
      {
        assert rows[i] in granted;
        assert (role, rows[i]) in db.grants;
        out.permissions := out.permissions[rows[i] := ToPermission(db, rows[i])];
      }
      forall p | (role, p) in db.grants ensures p in out.permissions {
        assert p in granted;
        assert p in rows;
      }
    }

    /** Every role reachable from the starting roles exactly once and no other, and the union of
        what they grant; one visited map serves all starting roles. */
    method EffectiveFrom(starts: set<RoleId>) returns (permissions: seq<Permission>, roles: seq<Role>)
      requires Valid(db) && starts <= db.roles.Keys
      ensures IsEffective(db, starts, permissions, roles)
    {
      var out := new Collected();
      var held := InSomeOrder(starts);
      for i := 0 to |held|
        invariant out.Tallies(db) && Closed(db.parents, out.visited)
        invariant forall k :: 0 <= k < i ==> held[k] in out.visited
        invariant forall r :: r in out.visited ==> ReachableFrom(db.parents, starts, r)
      {
        assert held[i] in starts;
        CollectRolePermissions(held[i], out);
      }
      forall r | ReachableFrom(db.parents, starts, r) ensures r in out.visited {
        var s :| s in starts && Reaches(db.parents, s, r);
        assert s in held;
        ClosedKeepsReachable(db.parents, out.visited, s, r);
      }
      roles := out.roles;
      permissions := ValuesInSomeOrder(out.permissions);
      VisitedIsEffective(db, starts, out.visited, out.permissions, permissions, roles);
    }

    method ValuesInSomeOrder(m: map<PermissionId, Permission>) returns (values: seq<Permission>)
      requires forall p :: p in m ==> m[p].id == p
      ensures forall i, j :: 0 <= i < j < |values| ==> values[i].id != values[j].id
      ensures forall i :: 0 <= i < |values| ==> values[i].id in m && values[i] == m[values[i].id]
      ensures forall p :: p in m ==> m[p] in values
    {
      var keys := InSomeOrder(m.Keys);
      values := [];
      for i := 0 to |keys|
        invariant |values| == i
        invariant forall k :: 0 <= k < i ==> keys[k] in m && values[k] == m[keys[k]] && values[k].id == keys[k]
      {
        assert keys[i] in m.Keys;
        values := values + [m[keys[i]]];
      }
      forall p | p in m ensures m[p] in values {
        assert p in keys;
        var i :| 0 <= i < |keys| && keys[i] == p;
        assert values[i] == m[p];
      }
    }

    method EffectivePermissions(user: HolderId) returns (permissions: seq<Permission>, roles: seq<Role>)
      requires Valid(db)
      ensures IsEffective(db, UserStarts(db, user), permissions, roles)
    {
      permissions, roles := EffectiveFrom(UserStarts(db, user));
    }

    method EffectiveServiceAccountPermissions(account: HolderId)
      returns (permissions: seq<Permission>, roles: seq<Role>)
      requires Valid(db)
      ensures IsEffective(db, AccountStarts(db, account), permissions, roles)
    {
      permissions, roles := EffectiveFrom(AccountStarts(db, account));
    }

    /** The last step of authorising a service account: the same decision, from the roles the account holds. */
    method PermitsAccount(account: HolderId, operation: string) returns (allowed: bool)
      requires Valid(db)
      ensures allowed <==> Allowed(db, AccountStarts(db, account), operation)
      ensures allowed <==> exists r :: (account, r) in db.accountRoles && Allowed(db, {r}, operation)
    {
      AllowedIffSomeRoleAllows(db, AccountStarts(db, account), operation);
      StartsAreHeld(db, account);
      var permissions, roles := EffectiveServiceAccountPermissions(account);
      DecisionIsDeclarative(db, AccountStarts(db, account), permissions, roles, operation);
      return HasPermission(roles, permissions, operation);
    }

    method Authorize(user: HolderId, operation: string) returns (result: Result<AuthContext, AuthError>)
      requires Valid(db)
      ensures result.Ok? <==>
              user in db.users && !db.users[user].disabled && Allowed(db, UserStarts(db, user), operation)
      ensures result.Ok? <==> && user in db.users && !db.users[user].disabled
                              && exists r :: (user, r) in db.userRoles && Allowed(db, {r}, operation)
      ensures result == Err(UserNotFound) <==> user !in db.users
      ensures result == Err(UserDisabled) <==> user in db.users && db.users[user].disabled
      ensures result.Ok? ==> result.value.holder == user
                             && IsEffective(db, UserStarts(db, user), result.value.permissions, result.value.roles)
    {
      AllowedIffSomeRoleAllows(db, UserStarts(db, user), operation);
      StartsAreHeld(db, user);
      if user !in db.users {
        return Err(UserNotFound);
      }
      if db.users[user].disabled {
        return Err(UserDisabled);
      }
      var permissions, roles := EffectivePermissions(user);
      DecisionIsDeclarative(db, UserStarts(db, user), permissions, roles, operation);
      if !HasPermission(roles, permissions, operation) {
        return Err(PermissionDenied);
      }
      return Ok(AuthContext(user, permissions, roles));
    }
  }

  lemma StartsAreHeld(t: Tables, holder: HolderId)
    ensures forall r :: r in UserStarts(t, holder) <==> (holder, r) in t.userRoles
    ensures forall r :: r in AccountStarts(t, holder) <==> (holder, r) in t.accountRoles
  {
  }

  lemma AccountRolesReplaced(t: Tables, account: HolderId, roles: seq<RoleId>)
    ensures AccountStarts(WithAccountRoles(t, account, roles), account) == SetOf(roles)
    ensures forall other :: other != account
                            ==> AccountStarts(WithAccountRoles(t, account, roles), other) == AccountStarts(t, other)
  {
    var t' := WithAccountRoles(t, account, roles);
    forall r | r in roles ensures r in AccountStarts(t', account) {
      assert (account, r) in t'.accountRoles;
    }
    forall other, r | other != account && r in AccountStarts(t, other) ensures r in AccountStarts(t', other) {
      assert (other, r) in t'.accountRoles;
    }
  }

  lemma RoleAppended(t: Tables, visited: set<RoleId>, roles: seq<Role>, role: RoleId)
    requires RolesTally(t, visited, roles) && role in t.roles && role !in visited
    ensures RolesTally(t, visited + {role}, roles + [ToRole(t, role)])
  {
  }

  lemma VisitedIsEffective(t: Tables, starts: set<RoleId>, visited: set<RoleId>, found: map<PermissionId, Permission>,
                           permissions: seq<Permission>, roles: seq<Role>)
    requires Valid(t) && RolesTally(t, visited, roles) && PermissionsTally(t, visited, found)
    requires forall r :: r in visited <==> ReachableFrom(t.parents, starts, r)
    requires forall i, j :: 0 <= i < j < |permissions| ==> permissions[i].id != permissions[j].id
    requires forall i :: 0 <= i < |permissions|
                         ==> permissions[i].id in found && permissions[i] == found[permissions[i].id]
    requires forall p :: p in found ==> found[p] in permissions
    ensures IsEffective(t, starts, permissions, roles)
  {
  }
}
