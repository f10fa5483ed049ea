/** The batched edge loaders: one query for all permissions of a page, then the rows are handed out
    to the permission objects in place. */
module EdgeLoader {
  import opened Common

  class RoleNode {
    const id: int

    constructor (id: int)
      ensures this.id == id
    {
      this.id := id;
    }
  }

  class ModuleNode {
    const id: int

    constructor (id: int)
      ensures this.id == id
    {
      this.id := id;
    }
  }

  class PermissionNode {
    const id: int
    const moduleId: Option<int>
    var roles: seq<RoleNode>
    var mod: ModuleNode?

    constructor (id: int, moduleId: Option<int>)
      ensures this.id == id && this.moduleId == moduleId && roles == [] && mod == null
    {
      this.id, this.moduleId, roles, mod := id, moduleId, [], null;
    }
  }

  /** A row of the join table: a role holds a permission. */
  datatype JoinRow = JoinRow(permission: int, role: int)

  predicate DistinctIds(nodes: seq<PermissionNode>) {
    forall i, j :: 0 <= i < j < |nodes| ==> nodes[i].id != nodes[j].id
  }

  // ----- what the many-to-many loader has to give -----

  /** Asking the table about one permission. */
  function RolesOf(rows: seq<JoinRow>, permission: int): set<int> {
    set i | 0 <= i < |rows| && rows[i].permission == permission :: rows[i].role
  }

  /** Each role of the permission exactly once, as the one object of that role. */
  ghost predicate HasRoles(roles: seq<RoleNode>, wanted: set<int>, objects: map<int, RoleNode>) {
    && (forall i, j :: 0 <= i < j < |roles| ==> roles[i].id != roles[j].id)
    && (forall i :: 0 <= i < |roles|
                    ==> roles[i].id in wanted && roles[i].id in objects && objects[roles[i].id] == roles[i])
    && (forall r :: r in wanted ==> exists i :: 0 <= i < |roles| && roles[i].id == r)
  }

  // ----- how it works it out -----

  type Holders = map<int, set<PermissionNode>>

  ghost predicate Takes(holders: Holders, role: RoleNode, node: PermissionNode) {
    role.id in holders && node in holders[role.id]
  }

  /** The neighbours that a permission gets, in the order in which they are handed out. */
  ghost function Handed(neighbors: seq<RoleNode>, holders: Holders, node: PermissionNode): seq<RoleNode>
    decreases |neighbors|
  {
    if neighbors == [] then []
    else
      var last := neighbors[|neighbors| - 1];
      Handed(neighbors[..|neighbors| - 1], holders, node) + if Takes(holders, last, node) then [last] else []
  }

  ghost predicate Distinct(roles: seq<RoleNode>) {
    forall i, j :: 0 <= i < j < |roles| ==> roles[i].id != roles[j].id
  }

  /** Who holds which role, by the rows read so far. */
  ghost predicate HoldersMatch(nodes: seq<PermissionNode>, rows: seq<JoinRow>, holders: Holders) {
    && (forall r, n :: r in holders && n in holders[r] ==> n in nodes && r in RolesOf(rows, n.id))
    && (forall n, r :: n in nodes && r in RolesOf(rows, n.id) ==> r in holders && n in holders[r])
  }

  /** One object for each role seen. */
  ghost predicate OneEach(holders: Holders, neighbors: seq<RoleNode>) {
    && Distinct(neighbors)
    && (forall i :: 0 <= i < |neighbors| ==> neighbors[i].id in holders)
    && (forall r :: r in holders ==> exists i :: 0 <= i < |neighbors| && neighbors[i].id == r)
  }

  ghost predicate Grouped(nodes: seq<PermissionNode>, rows: seq<JoinRow>, holders: Holders, neighbors: seq<RoleNode>) {
    HoldersMatch(nodes, rows, holders) && OneEach(holders, neighbors)
  }

  lemma InPrefix(s: seq<RoleNode>, k: nat, n: RoleNode)
    requires k <= |s| && n in s[..k]
    ensures exists i :: 0 <= i < k && s[i] == n
    ensures n in s
  {
    var i :| 0 <= i < k && s[..k][i] == n;
    assert s[i] == n;
  }

  /** What is handed out are the neighbours that the permission takes. */
  lemma {:induction false} HandedMembers(neighbors: seq<RoleNode>, holders: Holders, node: PermissionNode,
                                         h: seq<RoleNode>)
    requires h == Handed(neighbors, holders, node)
    ensures forall i :: 0 <= i < |h| ==> h[i] in neighbors && Takes(holders, h[i], node)
    ensures forall i :: 0 <= i < |neighbors| && Takes(holders, neighbors[i], node) ==> neighbors[i] in h
    decreases |neighbors|
  {
    if neighbors != [] {
      var k := |neighbors| - 1;
      var h0 := Handed(neighbors[..k], holders, node);
      HandedMembers(neighbors[..k], holders, node, h0);
      forall i | 0 <= i < |h| ensures h[i] in neighbors && Takes(holders, h[i], node) {
        if i < |h0| {
          assert h[i] == h0[i];
          InPrefix(neighbors, k, h0[i]);
        }
      }
      forall i | 0 <= i < |neighbors| && Takes(holders, neighbors[i], node) ensures neighbors[i] in h {
        if i < k {
          assert neighbors[..k][i] in h0;
        }
      }
    }
  }

  lemma {:induction false} HandedDistinct(neighbors: seq<RoleNode>, holders: Holders, node: PermissionNode,
                                          h: seq<RoleNode>)
    requires Distinct(neighbors) && h == Handed(neighbors, holders, node)
    ensures Distinct(h)
    decreases |neighbors|
  {
    if neighbors != [] {
      var k := |neighbors| - 1;
      var h0 := Handed(neighbors[..k], holders, node);
      HandedDistinct(neighbors[..k], holders, node, h0);
      HandedMembers(neighbors[..k], holders, node, h0);
      forall i | 0 <= i < |h0| ensures h0[i].id != neighbors[k].id {
        InPrefix(neighbors, k, h0[i]);
      }
    }
  }

  lemma HandedGivesRoles(nodes: seq<PermissionNode>, rows: seq<JoinRow>, holders: Holders, neighbors: seq<RoleNode>,
                         objects: map<int, RoleNode>, node: PermissionNode)
    requires Grouped(nodes, rows, holders, neighbors) && node in nodes
    requires forall i :: 0 <= i < |neighbors| ==> neighbors[i].id in objects && objects[neighbors[i].id] == neighbors[i]
    ensures HasRoles(Handed(neighbors, holders, node), RolesOf(rows, node.id), objects)
  {
    var h := Handed(neighbors, holders, node);
    HandedDistinct(neighbors, holders, node, h);
    HandedMembers(neighbors, holders, node, h);
    forall i | 0 <= i < |h|
      ensures h[i].id in RolesOf(rows, node.id) && h[i].id in objects && objects[h[i].id] == h[i]
    {
      var j :| 0 <= j < |neighbors| && neighbors[j] == h[i];
    }
    forall r | r in RolesOf(rows, node.id) ensures exists i :: 0 <= i < |h| && h[i].id == r {
      assert r in holders && node in holders[r];
      var j :| 0 <= j < |neighbors| && neighbors[j].id == r;
      assert neighbors[j] in h;
    }
  }

  lemma RolesOfOneMore(rows: seq<JoinRow>, row: JoinRow, permission: int)
    ensures RolesOf(rows + [row], permission)
         == RolesOf(rows, permission) + if row.permission == permission then {row.role} else {}
  {
    forall r | r in RolesOf(rows, permission) ensures r in RolesOf(rows + [row], permission) {
      var i :| 0 <= i < |rows| && rows[i].permission == permission && rows[i].role == r;
      assert (rows + [row])[i] == rows[i];
    }
    if row.permission == permission {
      assert (rows + [row])[|rows|] == row;
    }
  }

  function WithHolder(holders: Holders, role: int, node: PermissionNode): Holders {
    holders[role := (if role in holders then holders[role] else {}) + {node}]
  }

  lemma FirstHolder(holders: Holders, role: int, node: PermissionNode)
    requires role !in holders
    ensures WithHolder(holders, role, node) == holders[role := {node}]
  {
    var none: set<PermissionNode> := {};
    assert none + {node} == {node};
  }

  lemma RowOfNobody(nodes: seq<PermissionNode>, rows: seq<JoinRow>, row: JoinRow, holders: Holders)
    requires HoldersMatch(nodes, rows, holders) && forall n :: n in nodes ==> n.id != row.permission
    ensures HoldersMatch(nodes, rows + [row], holders)
  {
    forall n | n in nodes ensures RolesOf(rows + [row], n.id) == RolesOf(rows, n.id) {
      RolesOfOneMore(rows, row, n.id);
    }
  }

  lemma RowOfNode(nodes: seq<PermissionNode>, rows: seq<JoinRow>, row: JoinRow, holders: Holders, node: PermissionNode)
    requires HoldersMatch(nodes, rows, holders) && node in nodes && node.id == row.permission
    requires forall n :: n in nodes && n.id == node.id ==> n == node
    ensures HoldersMatch(nodes, rows + [row], WithHolder(holders, row.role, node))
  {
    forall n | n in nodes
      ensures RolesOf(rows + [row], n.id) == RolesOf(rows, n.id) + if n == node then {row.role} else {}
    {
      RolesOfOneMore(rows, row, n.id);
    }
  }

  lemma OneEachMore(holders: Holders, neighbors: seq<RoleNode>, node: PermissionNode, role: RoleNode)
    requires OneEach(holders, neighbors) && role.id !in holders
    ensures OneEach(WithHolder(holders, role.id, node), neighbors + [role])
  {
    var more := neighbors + [role];
    assert more[|neighbors|] == role;
    forall r | r in holders ensures exists i :: 0 <= i < |more| && more[i].id == r {
      var i :| 0 <= i < |neighbors| && neighbors[i].id == r;
      assert more[i] == neighbors[i];
    }
  }

  lemma OneEachSame(holders: Holders, neighbors: seq<RoleNode>, node: PermissionNode, role: int)
    requires OneEach(holders, neighbors) && role in holders
    ensures OneEach(WithHolder(holders, role, node), neighbors)
  {
  }

  /** Reading the query's rows: a role is built when it is first seen. */
  method Group(nodes: seq<PermissionNode>, byId: map<int, PermissionNode>, rows: seq<JoinRow>)
    returns (holders: Holders, neighbors: seq<RoleNode>)
    requires forall n :: n in nodes ==> n.id in byId && byId[n.id] == n
    requires forall k :: k in byId ==> byId[k] in nodes && byId[k].id == k
    ensures Grouped(nodes, rows, holders, neighbors)
    ensures forall i :: 0 <= i < |neighbors| ==> fresh(neighbors[i])
  {
    holders, neighbors := map[], [];
    for i := 0 to |rows|
      invariant Grouped(nodes, rows[..i], holders, neighbors)
      invariant forall k :: 0 <= k < |neighbors| ==> fresh(neighbors[k])
    {
      var row := rows[i];
      assert rows[..i + 1] == rows[..i] + [row];
      if row.permission !in byId {
        RowOfNobody(nodes, rows[..i], row, holders);
      } else {
        var node := byId[row.permission];
        RowOfNode(nodes, rows[..i], row, holders, node);
        if row.role !in holders {
          var role := new RoleNode(row.role);
          OneEachMore(holders, neighbors, node, role);
          FirstHolder(holders, row.role, node);
          holders := holders[row.role := {node}];
          neighbors := neighbors + [role];
        } else {
          OneEachSame(holders, neighbors, node, row.role);
          holders := holders[row.role := holders[row.role] + {node}];
        }
      }
    }
    assert rows[..|rows|] == rows;
  }

  /** For distinct permissions and the rows of the join table in any order, repeats allowed, each
      permission ends with exactly the roles it would get if asked alone. */
  method LoadRoles(nodes: seq<PermissionNode>, rows: seq<JoinRow>) returns (ghost objects: map<int, RoleNode>)
    requires DistinctIds(nodes)
    modifies nodes
    ensures forall n :: n in nodes ==> HasRoles(n.roles, RolesOf(rows, n.id), objects)
    ensures forall n :: n in nodes ==> n.mod == old(n.mod)
  {
    var byId: map<int, PermissionNode> := map[];
    for i := 0 to |nodes|
      invariant forall k :: 0 <= k < i ==> nodes[k].id in byId && byId[nodes[k].id] == nodes[k] && nodes[k].roles == []
      invariant forall k :: k in byId ==> byId[k] in nodes && byId[k].id == k
      invariant forall n :: n in nodes ==> n.mod == old(n.mod)
    {
      byId := byId[nodes[i].id := nodes[i]];
      nodes[i].roles := [];
    }
    var holders, neighbors := Group(nodes, byId, rows);
    HandOut(nodes, holders, neighbors);
    objects := map r | r in holders :: (var i :| 0 <= i < |neighbors| && neighbors[i].id == r; neighbors[i]);
    forall n | n in nodes ensures HasRoles(n.roles, RolesOf(rows, n.id), objects) {
      HandedGivesRoles(nodes, rows, holders, neighbors, objects, n);
    }
  }

  method HandOut(nodes: seq<PermissionNode>, holders: Holders, neighbors: seq<RoleNode>)
    requires forall n :: n in nodes ==> n.roles == []
    requires forall r, n :: r in holders && n in holders[r] ==> n in nodes
    requires forall i :: 0 <= i < |neighbors| ==> neighbors[i].id in holders
    modifies nodes
    ensures forall n :: n in nodes ==> n.roles == Handed(neighbors, holders, n)
    ensures forall n :: n in nodes ==> n.mod == old(n.mod)
  {
    for i := 0 to |neighbors|
      invariant forall n :: n in nodes ==> n.roles == Handed(neighbors[..i], holders, n)
      invariant forall n :: n in nodes ==> n.mod == old(n.mod)
    {
      var role := neighbors[i];
      var rest := holders[role.id];
      assert neighbors[..i + 1][..i] == neighbors[..i];
      while rest != {}
        invariant rest <= holders[role.id]
        invariant forall n :: n in nodes ==>
                    n.roles == Handed(neighbors[..i], holders, n) + if n in holders[role.id] - rest then [role] else []
        invariant forall n :: n in nodes ==> n.mod == old(n.mod)
        decreases rest
      {
        var n :| n in rest;
        assert n in holders[role.id] && n in nodes;
        n.roles := n.roles + [role];
        rest := rest - {n};
      }
    }
    assert neighbors[..|neighbors|] == neighbors;
  }

  // ----- the many-to-one loader -----

  ghost predicate GroupedByModule(nodes: seq<PermissionNode>, groups: map<int, seq<PermissionNode>>) {
    && (forall k, n :: k in groups && n in groups[k] ==> n in nodes && n.moduleId == Some(k))
    && (forall n :: n in nodes && n.moduleId.Some? ==> n.moduleId.value in groups && n in groups[n.moduleId.value])
  }

  lemma NobodyNames(nodes: seq<PermissionNode>, groups: map<int, seq<PermissionNode>>, k: int)
    requires GroupedByModule(nodes, groups) && k !in groups
    ensures forall n :: n in nodes ==> n.moduleId != Some(k)
  {
  }

  /** Permissions of the same module share one module object; a permission without a foreign key, or
      whose module has no row, is left as it was. `table` is the module table in any order. */
  method LoadModule(nodes: seq<PermissionNode>, table: seq<int>) returns (unexpected: bool)
    requires forall i, j :: 0 <= i < j < |table| ==> table[i] != table[j]
    modifies nodes
    ensures !unexpected
    ensures forall n :: n in nodes && n.moduleId.Some? && n.moduleId.value in table
                        ==> n.mod != null && n.mod.id == n.moduleId.value
    ensures forall n, m :: && n in nodes && m in nodes && n.moduleId == m.moduleId
                           && n.moduleId.Some? && n.moduleId.value in table
                           ==> n.mod == m.mod
    ensures forall n :: n in nodes && (n.moduleId.None? || n.moduleId.value !in table) ==> n.mod == old(n.mod)
    ensures forall n :: n in nodes ==> n.roles == old(n.roles)
  {
    var ids: seq<int> := [];
    var groups: map<int, seq<PermissionNode>> := map[];
    for i := 0 to |nodes|
      invariant GroupedByModule(nodes[..i], groups)
      invariant forall k :: k in ids <==> k in groups
      invariant forall n :: n in nodes ==> n.mod == old(n.mod) && n.roles == old(n.roles)
    {
      assert nodes[..i + 1] == nodes[..i] + [nodes[i]];
      if nodes[i].moduleId.Some? {
        var fk := nodes[i].moduleId.value;
        if fk !in groups {
          ids := ids + [fk];
          groups := groups[fk := [nodes[i]]];
        } else {
          groups := groups[fk := groups[fk] + [nodes[i]]];
        }
      }
    }
    assert nodes[..|nodes|] == nodes;
    assert forall k :: k in groups ==> k in ids;
    if ids == [] {
      forall k: int ensures forall n :: n in nodes ==> n.moduleId != Some(k) {
        NobodyNames(nodes, groups, k);
      }
      return false;
    }
    for i := 0 to |table|
      invariant forall n :: n in nodes && n.moduleId.Some? && n.moduleId.value in table[..i]
                            ==> n.mod != null && n.mod.id == n.moduleId.value
      invariant forall n, m :: && n in nodes && m in nodes && n.moduleId == m.moduleId
                               && n.moduleId.Some? && n.moduleId.value in table[..i]
                               ==> n.mod == m.mod
      invariant forall n :: n in nodes && (n.moduleId.None? || n.moduleId.value !in table[..i]) ==> n.mod == old(n.mod)
      invariant forall n :: n in nodes ==> n.roles == old(n.roles)
    {
      assert table[..i + 1] == table[..i] + [table[i]];
      if table[i] in ids {
        var mod := new ModuleNode(table[i]);
        if mod.id !in groups {
          return true;
        }
        AssignModule(nodes, groups[mod.id], mod);
      } else {
        NobodyNames(nodes, groups, table[i]);
      }
    }
    assert table[..|table|] == table;
    return false;
  }

  method AssignModule(nodes: seq<PermissionNode>, group: seq<PermissionNode>, mod: ModuleNode)
    requires forall n :: n in group ==> n in nodes
    modifies nodes
    ensures forall n :: n in nodes ==> n.mod == (if n in group then mod else old(n.mod)) && n.roles == old(n.roles)
  {
    for i := 0 to |group|
      invariant forall n :: n in nodes
                            ==> n.mod == (if n in group[..i] then mod else old(n.mod)) && n.roles == old(n.roles)
    {
      assert group[..i + 1] == group[..i] + [group[i]];
      assert group[i] in group && group[i] in nodes;
      group[i].mod := mod;
    }
    assert group[..|group|] == group;
  }
}
