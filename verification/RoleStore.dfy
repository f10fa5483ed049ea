/** The tables behind roles, and what each repository call does to them as one step.
    `mirrored` is the Bidi flag of the parents edge: with it the edge table holds both
    directions of every edge. The generated builders set it, although the design is a
    directed relation, so every result below says which of the two it is about. */
module RoleStore {
  import opened Common
  import opened RoleGraph

  type PermissionId = int

  type HolderId = int

  datatype RoleRow = RoleRow(name: string, system: bool)

  datatype PermissionRow = PermissionRow(moduleName: string, action: string, operation: string)

  datatype UserRow = UserRow(username: string, disabled: bool)

  datatype Tables = Tables(
    roles: map<RoleId, RoleRow>,
    permissions: map<PermissionId, PermissionRow>,
    parents: Edges,
    grants: set<(RoleId, PermissionId)>,
    users: map<HolderId, UserRow>,
    userRoles: set<(HolderId, RoleId)>,
    accountRoles: set<(HolderId, RoleId)>,
    nextRole: RoleId,
    mirrored: bool)

  /** Foreign keys hold, and identifiers are positive and handed out in increasing order. */
  ghost predicate Valid(t: Tables) {
    && 0 < t.nextRole
    && (forall r :: r in t.roles ==> 0 < r < t.nextRole)
    && (forall e :: e in t.parents ==> e.0 in t.roles && e.1 in t.roles)
    && (forall e :: e in t.grants ==> e.0 in t.roles && e.1 in t.permissions)
    && (forall e :: e in t.userRoles ==> e.1 in t.roles)
    && (forall e :: e in t.accountRoles ==> e.1 in t.roles)
    && (t.mirrored ==> Symmetric(t.parents))
  }

  datatype RoleError =
    | SelfInheritance
    | InheritanceCycle
    | NotFound
    | Conflict
    | SystemProtected
    | InvalidName
    | WriteRejected

  function SetOf<T>(s: seq<T>): set<T> {
    set x | x in s
  }

  lemma MissingFrom<T>(s: seq<T>, among: set<T>) returns (x: T)
    requires !(SetOf(s) <= among)
    ensures x in s && x !in among
  {
    x :| x in SetOf(s) && x !in among;
  }

  // ----- validation -----

  /** What validating the new parents `ps` of `r` reports; `r` is 0 for a role not yet created. */
  ghost function InheritanceError(g: Edges, r: RoleId, ps: seq<RoleId>): Option<RoleError> {
    if ps == [] then None
    else if r != 0 && ps[0] == r then Some(SelfInheritance)
    else if r != 0 && Reaches(g, ps[0], r) then Some(InheritanceCycle)
    else InheritanceError(g, r, ps[1..])
  }

  lemma {:induction false} NoErrorMeansNoneReaches(g: Edges, r: RoleId, ps: seq<RoleId>)
    ensures InheritanceError(g, r, ps) == None <==> r == 0 || forall p :: p in ps ==> !Reaches(g, p, r)
  {
    if ps != [] {
      ReachesSelf(g, r);
      NoErrorMeansNoneReaches(g, r, ps[1..]);
      assert forall p :: p in ps <==> p == ps[0] || p in ps[1..];
    }
  }

  /** The first parent that is or reaches the role decides which error is reported. */
  ghost predicate FirstOffender(g: Edges, r: RoleId, ps: seq<RoleId>, i: int) {
    0 <= i < |ps| && Reaches(g, ps[i], r) && forall j :: 0 <= j < i ==> !Reaches(g, ps[j], r)
  }

  lemma {:induction false} FirstOffenderIsReported(g: Edges, r: RoleId, ps: seq<RoleId>) returns (i: int)
    requires InheritanceError(g, r, ps).Some?
    ensures FirstOffender(g, r, ps, i)
    ensures InheritanceError(g, r, ps).value == if ps[i] == r then SelfInheritance else InheritanceCycle
    decreases |ps|
  {
    ReachesSelf(g, r);
    NoErrorMeansNoneReaches(g, r, ps);
    if Reaches(g, ps[0], r) {
      i := 0;
    } else {
      var k := FirstOffenderIsReported(g, r, ps[1..]);
      i := k + 1;
      assert forall j :: 0 < j < i ==> ps[j] == ps[1..][j - 1];
    }
  }

  /** On an acyclic directed graph, new parents for an existing role are refused exactly
      when the graph with those parents would have a cycle. */
  lemma RefusedIffCyclic(g: Edges, r: RoleId, ps: seq<RoleId>)
    requires r != 0 && Acyclic(g)
    ensures InheritanceError(g, r, ps) != None <==> Cyclic(Replaced(g, r, SetOf(ps), false))
  {
    NoErrorMeansNoneReaches(g, r, ps);
    CycleCheckExact(g, r, SetOf(ps));
  }

  // ----- the calls -----

  datatype Call =
    | Create(name: string, permissions: seq<PermissionId>, inherited: seq<RoleId>)
    | SetInherited(role: RoleId, inherited: seq<RoleId>)
    | Delete(role: RoleId)
    | AssignPermissions(role: RoleId, permissions: seq<PermissionId>)

  /** The row goes in before its edge rows, so the foreign keys of the edges already see it. */
  ghost function CreateOutcome(t: Tables, name: string, ps: seq<PermissionId>, inherited: seq<RoleId>)
    : Option<RoleError>
  {
    var refused := InheritanceError(t.parents, 0, inherited);
    if refused.Some? then refused
    else if name == "" then Some(InvalidName)
    else if exists r :: r in t.roles && t.roles[r].name == name then Some(Conflict)
    else if !(SetOf(ps) <= t.permissions.Keys) then Some(Conflict)
    else if !(SetOf(inherited) <= t.roles.Keys + {t.nextRole}) then Some(Conflict)
    else None
  }

  function Created(t: Tables, name: string, ps: seq<PermissionId>, inherited: seq<RoleId>): Tables {
    t.(roles := t.roles[t.nextRole := RoleRow(name, false)],
       grants := t.grants + (set p | p in ps :: (t.nextRole, p)),
       parents := t.parents + Written(t.nextRole, SetOf(inherited), t.mirrored),
       nextRole := t.nextRole + 1)
  }

  ghost function SetInheritedOutcome(t: Tables, r: RoleId, inherited: seq<RoleId>): Option<RoleError> {
    var refused := InheritanceError(t.parents, r, inherited);
    if refused.Some? then refused
    else if r !in t.roles || !(SetOf(inherited) <= t.roles.Keys) then Some(WriteRejected)
    else None
  }

  function WithInherited(t: Tables, r: RoleId, inherited: seq<RoleId>): Tables {
    t.(parents := Replaced(t.parents, r, SetOf(inherited), t.mirrored))
  }

  function DeleteOutcome(t: Tables, r: RoleId): Option<RoleError> {
    if r !in t.roles then Some(NotFound)
    else if t.roles[r].system || t.roles[r].name == "Admin" then Some(SystemProtected)
    else None
  }

  /** Deleting a role drops every edge that mentions it. */
  function Deleted(t: Tables, r: RoleId): Tables {
    t.(roles := t.roles - {r},
       parents := (set e | e in t.parents && e.0 != r && e.1 != r),
       grants := (set e | e in t.grants && e.0 != r),
       userRoles := (set e | e in t.userRoles && e.1 != r),
       accountRoles := (set e | e in t.accountRoles && e.1 != r))
  }

  function AssignOutcome(t: Tables, r: RoleId, ps: seq<PermissionId>): Option<RoleError> {
    if r !in t.roles || !(SetOf(ps) <= t.permissions.Keys) then Some(WriteRejected) else None
  }

  function WithPermissions(t: Tables, r: RoleId, ps: seq<PermissionId>): Tables {
    t.(grants := (set e | e in t.grants && e.0 != r) + (set p | p in ps :: (r, p)))
  }

  /** Replacing the roles a service account holds. */
  function WithAccountRoles(t: Tables, account: HolderId, roles: seq<RoleId>): Tables {
    t.(accountRoles := (set e | e in t.accountRoles && e.0 != account) + (set r | r in roles :: (account, r)))
  }

  ghost function Outcome(t: Tables, c: Call): Option<RoleError> {
    match c
    case Create(name, ps, inherited) => CreateOutcome(t, name, ps, inherited)
    case SetInherited(r, inherited) => SetInheritedOutcome(t, r, inherited)
    case Delete(r) => DeleteOutcome(t, r)
    case AssignPermissions(r, ps) => AssignOutcome(t, r, ps)
  }

  /** A refused call leaves the tables alone. */
  ghost function After(t: Tables, c: Call): Tables {
    if Outcome(t, c).Some? then t
    else match c
      case Create(name, ps, inherited) => Created(t, name, ps, inherited)
      case SetInherited(r, inherited) => WithInherited(t, r, inherited)
      case Delete(r) => Deleted(t, r)
      case AssignPermissions(r, ps) => WithPermissions(t, r, ps)
  }

  lemma CreateKeepsValid(t: Tables, name: string, ps: seq<PermissionId>, inherited: seq<RoleId>)
    requires Valid(t) && SetOf(ps) <= t.permissions.Keys && SetOf(inherited) <= t.roles.Keys + {t.nextRole}
    ensures Valid(Created(t, name, ps, inherited))
  {
  }

  lemma ReplaceKeepsValid(t: Tables, r: RoleId, inherited: seq<RoleId>)
    requires Valid(t) && r in t.roles && SetOf(inherited) <= t.roles.Keys
    ensures Valid(WithInherited(t, r, inherited))
  {
  }

  lemma CallKeepsValid(t: Tables, c: Call)
    requires Valid(t)
    ensures Valid(After(t, c))
  {
    if Outcome(t, c) == None {
      match c
      case Create(name, ps, inherited) => CreateKeepsValid(t, name, ps, inherited);
      case SetInherited(r, inherited) => ReplaceKeepsValid(t, r, inherited);
      case _ =>
    }
  }

  // ----- acyclicity over whole runs -----

  /** A check the caller can make before the call. Directed: a new role names only roles that
      already exist. Mirrored: no parents are given at all. */
  predicate Careful(t: Tables, c: Call) {
    match c
    case Create(_, _, inherited) => if t.mirrored then inherited == [] else SetOf(inherited) <= t.roles.Keys
    case SetInherited(_, inherited) => t.mirrored ==> inherited == []
    case _ => true
  }

  lemma CreateAcyclicIff(t: Tables, name: string, ps: seq<PermissionId>, inherited: seq<RoleId>)
    requires Valid(t) && Acyclic(t.parents) && !t.mirrored
    requires CreateOutcome(t, name, ps, inherited) == None
    ensures Acyclic(Created(t, name, ps, inherited).parents) <==> SetOf(inherited) <= t.roles.Keys
  {
    var n := t.nextRole;
    assert Cleared(t.parents, n, false) == t.parents;
    CycleCheckExact(t.parents, n, SetOf(inherited));
    if p :| p in inherited && Reaches(t.parents, p, n) {
      var via :| Walk(t.parents, p, via, n);
      OnlyItselfReaches(t.parents, n, p, via);
    }
    if n in inherited {
      ReachesSelf(t.parents, n);
    }
  }

  lemma MirroredAcyclicIff(g: Edges, r: RoleId, ps: seq<RoleId>)
    requires g == {}
    ensures Acyclic(Replaced(g, r, SetOf(ps), true)) <==> ps == []
  {
    if ps == [] {
      assert Replaced(g, r, SetOf(ps), true) == {};
    } else {
      MirroredEdgeCycles(g, r, SetOf(ps), ps[0]);
    }
  }

  /** One call keeps the graph acyclic exactly when it was refused or made with care. */
  lemma CallAcyclicIff(t: Tables, c: Call)
    requires Valid(t) && Acyclic(t.parents)
    ensures Acyclic(After(t, c).parents) <==> Outcome(t, c).Some? || Careful(t, c)
  {
    if Outcome(t, c) == None {
      if t.mirrored {
        SymmetricAcyclicIsEmpty(t.parents);
      }
      match c {
        case Create(name, ps, inherited) =>
          if t.mirrored {
            assert Replaced({}, t.nextRole, SetOf(inherited), true) == Created(t, name, ps, inherited).parents;
            MirroredAcyclicIff({}, t.nextRole, inherited);
          } else {
            CreateAcyclicIff(t, name, ps, inherited);
          }
        case SetInherited(r, inherited) =>
          if t.mirrored {
            MirroredAcyclicIff(t.parents, r, inherited);
          } else {
            RefusedIffCyclic(t.parents, r, inherited);
          }
        case Delete(r) => SubgraphAcyclic(t.parents, Deleted(t, r).parents);
        case AssignPermissions(_, _) =>
      }
    }
  }

  ghost predicate AlwaysAcyclic(t: Tables, run: seq<Call>)
    decreases |run|
  {
    Acyclic(t.parents) && (run != [] ==> AlwaysAcyclic(After(t, run[0]), run[1..]))
  }

  ghost predicate AlwaysCareful(t: Tables, run: seq<Call>)
    decreases |run|
  {
    run != [] ==> (Outcome(t, run[0]).Some? || Careful(t, run[0])) && AlwaysCareful(After(t, run[0]), run[1..])
  }

  /** Over any run of calls, every state is acyclic exactly when every accepted call was made with care. */
  lemma {:induction false} RunAcyclicIff(t: Tables, run: seq<Call>)
    requires Valid(t) && Acyclic(t.parents)
    ensures AlwaysAcyclic(t, run) <==> AlwaysCareful(t, run)
    decreases |run|
  {
    if run != [] {
      CallAcyclicIff(t, run[0]);
      CallKeepsValid(t, run[0]);
      if Acyclic(After(t, run[0]).parents) {
        RunAcyclicIff(After(t, run[0]), run[1..]);
      } else {
        assert !AlwaysAcyclic(After(t, run[0]), run[1..]);
      }
    }
  }

  const EMPTY_DIRECTED := Tables(map[], map[], {}, {}, map[], {}, {}, 1, false)

  const EMPTY_MIRRORED := EMPTY_DIRECTED.(mirrored := true)

  /** A first role that names identifier 1, its own to be, becomes its own parent. */
  lemma SelfNamedRoleCycles()
    ensures Cyclic(After(EMPTY_DIRECTED, Create("ops", [], [1])).parents)
  {
    var t := EMPTY_DIRECTED;
    assert SetOf<RoleId>([1]) == {1} && SetOf<PermissionId>([]) == {};
    assert InheritanceError(t.parents, 0, [1]) == None by {
      NoErrorMeansNoneReaches(t.parents, 0, [1]);
    }
    assert (1, 1) in After(t, Create("ops", [], [1])).parents;
    ReachesSelf(After(t, Create("ops", [], [1])).parents, 1);
  }

  /** With the mirrored table one ordinary inheritance is enough. */
  lemma MirroredInheritanceCycles()
    ensures var t := After(EMPTY_MIRRORED, Create("base", [], []));
            Cyclic(After(t, Create("ops", [], [1])).parents)
  {
    var t := After(EMPTY_MIRRORED, Create("base", [], []));
    assert InheritanceError(EMPTY_MIRRORED.parents, 0, []) == None;
    assert SetOf<PermissionId>([]) == {} && SetOf<RoleId>([]) == {} && SetOf<RoleId>([1]) == {1};
    assert 1 in t.roles && t.nextRole == 2 && t.mirrored;
    NoErrorMeansNoneReaches(t.parents, 0, [1]);
    assert "base" != "ops" by { assert |"base"| != |"ops"|; }
    var g := After(t, Create("ops", [], [1])).parents;
    assert (2, 1) in g && (1, 2) in g;
    ReachesEdge(g, 1, 2);
  }

  /** In a mirrored store saving a parent that a role already has is refused as a cycle. */
  lemma MirroredResaveRefused(t: Tables, r: RoleId, p: RoleId, inherited: seq<RoleId>)
    requires Valid(t) && t.mirrored && (r, p) in t.parents && p in inherited
    ensures InheritanceError(t.parents, r, inherited) != None
    ensures After(t, SetInherited(r, inherited)) == t
  {
    assert (p, r) in t.parents;
    ReachesEdge(t.parents, p, r);
    NoErrorMeansNoneReaches(t.parents, r, inherited);
  }

  /** In a mirrored store inheritance runs both ways: a role reaches whatever reaches it. */
  lemma MirroredInheritanceIsMutual(t: Tables, a: RoleId, b: RoleId)
    requires Valid(t) && t.mirrored
    ensures Reaches(t.parents, a, b) <==> Reaches(t.parents, b, a)
  {
    if via :| Walk(t.parents, a, via, b) {
      SymmetricWalkBack(t.parents, a, via, b);
    }
    if via :| Walk(t.parents, b, via, a) {
      SymmetricWalkBack(t.parents, b, via, a);
    }
  }
}
