/** The role-inheritance graph: an edge (a, b) says that b is a parent of a.
    Reachability is the existence of a walk; everything here is about walks. */
module RoleGraph {

  type RoleId = int

  type Edges = set<(RoleId, RoleId)>

  /** `via` lists the roles visited after `a`, the last of them being `b`. */
  ghost predicate Walk(g: Edges, a: RoleId, via: seq<RoleId>, b: RoleId)
    decreases |via|
  {
    if via == [] then a == b
    else (a, via[0]) in g && Walk(g, via[0], via[1..], b)
  }

  ghost predicate Reaches(g: Edges, a: RoleId, b: RoleId) {
    exists via :: Walk(g, a, via, b)
  }

  ghost predicate Cyclic(g: Edges) {
    exists a, b :: (a, b) in g && Reaches(g, b, a)
  }

  ghost predicate Acyclic(g: Edges) {
    !Cyclic(g)
  }

  ghost predicate Symmetric(g: Edges) {
    forall e :: e in g ==> (e.1, e.0) in g
  }

  ghost predicate Closed(g: Edges, s: set<RoleId>) {
    forall a, b :: (a, b) in g && a in s ==> b in s
  }

  /** Every edge out of a role that entered `after` since `before` stays inside `after`. */
  ghost predicate ClosedSince(g: Edges, before: set<RoleId>, after: set<RoleId>) {
    forall a, b :: (a, b) in g && a in after && a !in before ==> b in after
  }

  function ParentsOf(g: Edges, a: RoleId): set<RoleId> {
    set e | e in g && e.0 == a :: e.1
  }

  // ----- walks -----

  lemma ReachesSelf(g: Edges, a: RoleId)
    ensures Reaches(g, a, a)
  {
    assert Walk(g, a, [], a);
  }

  lemma ReachesStep(g: Edges, a: RoleId, b: RoleId, c: RoleId)
    requires (a, b) in g && Reaches(g, b, c)
    ensures Reaches(g, a, c)
  {
    var via :| Walk(g, b, via, c);
    assert ([b] + via)[1..] == via;
    assert Walk(g, a, [b] + via, c);
  }

  lemma ReachesEdge(g: Edges, a: RoleId, b: RoleId)
    requires (a, b) in g
    ensures Reaches(g, a, b)
  {
    ReachesSelf(g, b);
    ReachesStep(g, a, b, b);
  }

  lemma {:induction false} WalkThen(g: Edges, a: RoleId, via: seq<RoleId>, b: RoleId, c: RoleId)
    requires Walk(g, a, via, b) && Reaches(g, b, c)
    ensures Reaches(g, a, c)
    decreases |via|
  {
    if via != [] {
      WalkThen(g, via[0], via[1..], b, c);
      ReachesStep(g, a, via[0], c);
    }
  }

  lemma ReachesTransitive(g: Edges, a: RoleId, b: RoleId, c: RoleId)
    requires Reaches(g, a, b) && Reaches(g, b, c)
    ensures Reaches(g, a, c)
  {
    var via :| Walk(g, a, via, b);
    WalkThen(g, a, via, b, c);
  }

  lemma {:induction false} WalkMonotone(g: Edges, h: Edges, a: RoleId, via: seq<RoleId>, b: RoleId)
    requires g <= h && Walk(g, a, via, b)
    ensures Walk(h, a, via, b)
    decreases |via|
  {
    if via != [] {
      WalkMonotone(g, h, via[0], via[1..], b);
    }
  }

  lemma ReachesMonotone(g: Edges, h: Edges, a: RoleId, b: RoleId)
    requires g <= h && Reaches(g, a, b)
    ensures Reaches(h, a, b)
  {
    var via :| Walk(g, a, via, b);
    WalkMonotone(g, h, a, via, b);
  }

  /** A closed set cannot be left: what makes an exhausted search complete. */
  lemma {:induction false} WalkStaysInside(g: Edges, s: set<RoleId>, a: RoleId, via: seq<RoleId>, b: RoleId)
    requires Closed(g, s) && a in s && Walk(g, a, via, b)
    ensures b in s
    decreases |via|
  {
    if via != [] {
      assert (a, via[0]) in g;
      WalkStaysInside(g, s, via[0], via[1..], b);
    }
  }

  lemma ClosedKeepsReachable(g: Edges, s: set<RoleId>, a: RoleId, b: RoleId)
    requires Closed(g, s) && a in s && Reaches(g, a, b)
    ensures b in s
  {
    var via :| Walk(g, a, via, b);
    WalkStaysInside(g, s, a, via, b);
  }

  // ----- replacing the parents of one role -----

  /** What is left when the edges out of `r` are cleared; a mirrored edge table
      clears the edges into `r` as well. */
  function Cleared(g: Edges, r: RoleId, mirrored: bool): Edges {
    set e | e in g && e.0 != r && (mirrored ==> e.1 != r)
  }

  /** The edge rows written for `r` and its new parents; mirrored writes both directions. */
  function Written(r: RoleId, ps: set<RoleId>, mirrored: bool): Edges {
    (set p | p in ps :: (r, p)) + (if mirrored then set p | p in ps :: (p, r) else {})
  }

  function Replaced(g: Edges, r: RoleId, ps: set<RoleId>, mirrored: bool): Edges {
    Cleared(g, r, mirrored) + Written(r, ps, mirrored)
  }

  lemma WrittenBothWays(r: RoleId, ps: set<RoleId>, p: RoleId, mirrored: bool)
    requires p in ps
    ensures (r, p) in Written(r, ps, mirrored)
    ensures mirrored ==> (p, r) in Written(r, ps, mirrored)
  {
  }

  /** The search runs while the old parents of `r` are still in the graph; they do not
      matter, because a walk into `r` can be cut at its first visit to `r`. */
  lemma {:induction false} CutAtTarget(g: Edges, a: RoleId, via: seq<RoleId>, r: RoleId)
    requires Walk(g, a, via, r)
    ensures Reaches(Cleared(g, r, false), a, r)
    decreases |via|
  {
    if a == r {
      ReachesSelf(Cleared(g, r, false), r);
    } else {
      CutAtTarget(g, via[0], via[1..], r);
      ReachesStep(Cleared(g, r, false), a, via[0], r);
    }
  }

  /** Up to its first use of a new edge a walk stays in the cleared graph, so it reaches `r` there. */
  lemma {:induction false} BeforeNewEdge(g: Edges, r: RoleId, ps: set<RoleId>, a: RoleId, via: seq<RoleId>, b: RoleId)
    requires Walk(Replaced(g, r, ps, false), a, via, b)
    ensures Reaches(Cleared(g, r, false), a, b) || Reaches(Cleared(g, r, false), a, r)
    decreases |via|
  {
    var h := Cleared(g, r, false);
    ReachesSelf(h, a);
    if via != [] && a != r {
      BeforeNewEdge(g, r, ps, via[0], via[1..], b);
      assert (a, via[0]) in h;
      if Reaches(h, via[0], b) {
        ReachesStep(h, a, via[0], b);
      } else {
        ReachesStep(h, a, via[0], r);
      }
    }
  }

  /** After its last use of a new edge a walk stays in the cleared graph, starting at a new parent. */
  lemma {:induction false} AfterNewEdge(g: Edges, r: RoleId, ps: set<RoleId>, a: RoleId, via: seq<RoleId>, b: RoleId)
    requires Walk(Replaced(g, r, ps, false), a, via, b)
    ensures Reaches(Cleared(g, r, false), a, b) || exists p :: p in ps && Reaches(Cleared(g, r, false), p, b)
    decreases |via|
  {
    var h := Cleared(g, r, false);
    if via == [] {
      ReachesSelf(h, a);
    } else {
      AfterNewEdge(g, r, ps, via[0], via[1..], b);
      if Reaches(h, via[0], b) {
        if (a, via[0]) in h {
          ReachesStep(h, a, via[0], b);
        } else {
          assert via[0] in ps;
        }
      }
    }
  }

  lemma RefusedWouldCycle(g: Edges, r: RoleId, ps: set<RoleId>, p: RoleId)
    requires p in ps && Reaches(g, p, r)
    ensures Cyclic(Replaced(g, r, ps, false))
  {
    var via :| Walk(g, p, via, r);
    CutAtTarget(g, p, via, r);
    ReachesMonotone(Cleared(g, r, false), Replaced(g, r, ps, false), p, r);
    assert (r, p) in Replaced(g, r, ps, false);
  }

  lemma CycleWouldBeRefused(g: Edges, r: RoleId, ps: set<RoleId>)
    requires Acyclic(g) && Cyclic(Replaced(g, r, ps, false))
    ensures exists p :: p in ps && Reaches(g, p, r)
  {
    var h, g' := Cleared(g, r, false), Replaced(g, r, ps, false);
    var a, b :| (a, b) in g' && Reaches(g', b, a);
    var via :| Walk(g', b, via, a);
    BeforeNewEdge(g, r, ps, b, via, a);
    if a == r {
      assert b in ps;
      ReachesMonotone(h, g, b, r);
    } else {
      AfterNewEdge(g, r, ps, b, via, a);
      assert (a, b) in h;
      if Reaches(h, b, a) {
        ReachesMonotone(h, g, b, a);
        assert false;
      } else {
        var p :| p in ps && Reaches(h, p, a);
        ReachesStep(h, a, b, r);
        ReachesTransitive(h, p, a, r);
        ReachesMonotone(h, g, p, r);
      }
    }
  }

  /** The cycle check is exact, although it looks at the graph before the replacement. */
  lemma CycleCheckExact(g: Edges, r: RoleId, ps: set<RoleId>)
    requires Acyclic(g)
    ensures Cyclic(Replaced(g, r, ps, false)) <==> exists p :: p in ps && Reaches(g, p, r)
  {
    if Cyclic(Replaced(g, r, ps, false)) {
      CycleWouldBeRefused(g, r, ps);
    }
    if p :| p in ps && Reaches(g, p, r) {
      RefusedWouldCycle(g, r, ps, p);
    }
  }

  /** Nothing points at a fresh role, so only the role itself reaches it. */
  lemma {:induction false} OnlyItselfReaches(g: Edges, n: RoleId, a: RoleId, via: seq<RoleId>)
    requires forall e :: e in g ==> e.1 != n
    requires Walk(g, a, via, n)
    ensures a == n
    decreases |via|
  {
    if via != [] {
      assert (a, via[0]) in g;
      OnlyItselfReaches(g, n, via[0], via[1..]);
    }
  }

  /** A mirrored edge is a two-step cycle. */
  lemma MirroredEdgeCycles(g: Edges, r: RoleId, ps: set<RoleId>, p: RoleId)
    requires p in ps
    ensures Cyclic(Replaced(g, r, ps, true))
  {
    var h := Replaced(g, r, ps, true);
    assert (r, p) in h && (p, r) in h;
    ReachesEdge(h, p, r);
  }

  lemma SymmetricAcyclicIsEmpty(g: Edges)
    requires Symmetric(g) && Acyclic(g)
    ensures g == {}
  {
    if g != {} {
      var e :| e in g;
      assert e == (e.0, e.1);
      ReachesEdge(g, e.1, e.0);
      assert false;
    }
  }

  lemma {:induction false} SymmetricWalkBack(g: Edges, a: RoleId, via: seq<RoleId>, b: RoleId)
    requires Symmetric(g) && Walk(g, a, via, b)
    ensures Reaches(g, b, a)
    decreases |via|
  {
    if via == [] {
      ReachesSelf(g, a);
    } else {
      SymmetricWalkBack(g, via[0], via[1..], b);
      assert (via[0], a) in g;
      ReachesEdge(g, via[0], a);
      ReachesTransitive(g, b, via[0], a);
    }
  }

  lemma SubgraphAcyclic(g: Edges, h: Edges)
    requires h <= g && Acyclic(g)
    ensures Acyclic(h)
  {
    if Cyclic(h) {
      var a, b :| (a, b) in h && Reaches(h, b, a);
      ReachesMonotone(h, g, b, a);
      assert false;
    }
  }
}
