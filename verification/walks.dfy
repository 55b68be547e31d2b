/** Walks along prerequisite edges, reachability and acyclicity. */
module Walks {
  import opened SkillTree

  predicate HasEdge(edges: seq<Edge>, a: NodeId, b: NodeId) {
    exists e :: e in edges && e.source == a && e.target == b
  }

  /** A walk of one or more edges: consecutive ids are joined by an edge. */
  ghost predicate IsWalk(edges: seq<Edge>, p: seq<NodeId>) {
    |p| >= 2 && forall i :: 0 <= i < |p| - 1 ==> HasEdge(edges, p[i], p[i + 1])
  }

  /** `b` can be reached from `a` by following one or more edges. */
  ghost predicate Reaches(edges: seq<Edge>, a: NodeId, b: NodeId) {
    exists p :: IsWalk(edges, p) && p[0] == a && p[|p| - 1] == b
  }

  /** No node reaches itself: the prerequisite graph is a DAG. */
  ghost predicate Acyclic(edges: seq<Edge>) {
    forall a :: !Reaches(edges, a, a)
  }

  lemma EdgeReaches(edges: seq<Edge>, a: NodeId, b: NodeId)
    requires HasEdge(edges, a, b)
    ensures Reaches(edges, a, b)
  {
    assert IsWalk(edges, [a, b]);
  }

  lemma WalkConcat(edges: seq<Edge>, p: seq<NodeId>, q: seq<NodeId>)
    requires IsWalk(edges, p) && IsWalk(edges, q) && p[|p| - 1] == q[0]
    ensures IsWalk(edges, p + q[1..])
  {
    var w := p + q[1..];
    forall i | 0 <= i < |w| - 1
      ensures HasEdge(edges, w[i], w[i + 1])
    {
      if i < |p| - 1 {
        assert w[i] == p[i] && w[i + 1] == p[i + 1];
      } else {
        assert w[i] == q[i - |p| + 1] && w[i + 1] == q[i - |p| + 2];
      }
    }
  }

  lemma ReachesTrans(edges: seq<Edge>, a: NodeId, b: NodeId, c: NodeId)
    requires Reaches(edges, a, b) && Reaches(edges, b, c)
    ensures Reaches(edges, a, c)
  {
    var p :| IsWalk(edges, p) && p[0] == a && p[|p| - 1] == b;
    var q :| IsWalk(edges, q) && q[0] == b && q[|q| - 1] == c;
    WalkConcat(edges, p, q);
    var w := p + q[1..];
    assert w[0] == a && w[|w| - 1] == c;
  }

  /** Reaching by zero or more edges. */
  ghost predicate ReachesOrIs(edges: seq<Edge>, a: NodeId, b: NodeId) {
    a == b || Reaches(edges, a, b)
  }

  lemma ReachesOrIsTrans(edges: seq<Edge>, a: NodeId, b: NodeId, c: NodeId)
    requires ReachesOrIs(edges, a, b) && ReachesOrIs(edges, b, c)
    ensures ReachesOrIs(edges, a, c)
  {
    if a != b && b != c {
      ReachesTrans(edges, a, b, c);
    }
  }

  /** If every edge of `finer` is matched by a walk in `coarser`, so is every
      walk of `finer`: the walk's edges are replaced one by one. */
  lemma {:induction false} SimulateWalk(finer: seq<Edge>, coarser: seq<Edge>, p: seq<NodeId>)
    requires forall x, y :: HasEdge(finer, x, y) ==> Reaches(coarser, x, y)
    requires IsWalk(finer, p)
    ensures Reaches(coarser, p[0], p[|p| - 1])
    decreases |p|
  {
    assert HasEdge(finer, p[0], p[1]);
    if |p| > 2 {
      var rest := p[1..];
      assert IsWalk(finer, rest) by {
        forall i | 0 <= i < |rest| - 1 ensures HasEdge(finer, rest[i], rest[i + 1]) {
          assert rest[i] == p[i + 1] && rest[i + 1] == p[i + 2];
        }
      }
      SimulateWalk(finer, coarser, rest);
      ReachesTrans(coarser, p[0], p[1], p[|p| - 1]);
    }
  }

  lemma Simulate(finer: seq<Edge>, coarser: seq<Edge>)
    requires forall x, y :: HasEdge(finer, x, y) ==> Reaches(coarser, x, y)
    ensures forall a, b :: Reaches(finer, a, b) ==> Reaches(coarser, a, b)
  {
    forall a, b | Reaches(finer, a, b) ensures Reaches(coarser, a, b) {
      var p :| IsWalk(finer, p) && p[0] == a && p[|p| - 1] == b;
      SimulateWalk(finer, coarser, p);
    }
  }

  /** A graph whose edges are all shortcuts of walks of an acyclic graph is acyclic. */
  lemma SimulateAcyclic(finer: seq<Edge>, coarser: seq<Edge>)
    requires forall x, y :: HasEdge(finer, x, y) ==> Reaches(coarser, x, y)
    requires Acyclic(coarser)
    ensures Acyclic(finer)
  {
    Simulate(finer, coarser);
  }

  /** Every edge is its own walk, so a subgraph reaches no more than its graph. */
  lemma SubgraphReaches(sub: seq<Edge>, edges: seq<Edge>)
    requires forall e :: e in sub ==> e in edges
    ensures forall a, b :: Reaches(sub, a, b) ==> Reaches(edges, a, b)
  {
    forall x, y | HasEdge(sub, x, y) ensures Reaches(edges, x, y) {
      EdgeReaches(edges, x, y);
    }
    Simulate(sub, edges);
  }

  /** A walk in `edges` extended by the edge s->t either avoids that edge or
      goes from its start to `s`, crosses, and goes from `t` to its end. */
  lemma {:induction false} WalkWithExtraEdge(edges: seq<Edge>, extra: Edge, p: seq<NodeId>)
    requires IsWalk(edges + [extra], p)
    ensures Reaches(edges, p[0], p[|p| - 1])
         || (ReachesOrIs(edges, p[0], extra.source) && ReachesOrIs(edges, extra.target, p[|p| - 1]))
    decreases |p|
  {
    var n := |p|;
    var a, b := p[n - 2], p[n - 1];
    assert HasEdge(edges + [extra], a, b);
    var e :| e in edges + [extra] && e.source == a && e.target == b;
    if n == 2 {
      if e in edges {
        EdgeReaches(edges, a, b);
      }
    } else {
      var front := p[..n - 1];
      assert IsWalk(edges + [extra], front) by {
        forall i | 0 <= i < |front| - 1 ensures HasEdge(edges + [extra], front[i], front[i + 1]) {
          assert front[i] == p[i] && front[i + 1] == p[i + 1];
        }
      }
      WalkWithExtraEdge(edges, extra, front);
      assert front[0] == p[0] && front[|front| - 1] == a;
      if e in edges {
        EdgeReaches(edges, a, b);
        if Reaches(edges, p[0], a) {
          ReachesTrans(edges, p[0], a, b);
        } else {
          ReachesOrIsTrans(edges, extra.target, a, b);
        }
      } else {
        assert e == extra;
        if Reaches(edges, p[0], a) {
          assert ReachesOrIs(edges, p[0], extra.source);
        }
      }
    }
  }

  /** Adding the edge s->t to an acyclic graph keeps it acyclic when `s` is
      not reachable from `t` and the edge is not a self-loop. */
  lemma ExtendAcyclic(edges: seq<Edge>, extra: Edge)
    requires Acyclic(edges)
    requires extra.source != extra.target
    requires !Reaches(edges, extra.target, extra.source)
    ensures Acyclic(edges + [extra])
  {
    forall a ensures !Reaches(edges + [extra], a, a) {
      if Reaches(edges + [extra], a, a) {
        var p :| IsWalk(edges + [extra], p) && p[0] == a && p[|p| - 1] == a;
        WalkWithExtraEdge(edges, extra, p);
        if !Reaches(edges, a, a) {
          ReachesOrIsTrans(edges, extra.target, a, extra.source);
          assert false;
        }
      }
    }
  }

  /** An acyclic graph has no self-loop. */
  lemma AcyclicNoSelfLoop(edges: seq<Edge>, e: Edge)
    requires Acyclic(edges) && e in edges
    ensures e.source != e.target
  {
    if e.source == e.target {
      EdgeReaches(edges, e.source, e.target);
    }
  }
}
