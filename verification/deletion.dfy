/** Batch deletion: the `onNodesDelete` callback refunds the unlocked costs
    and reconnects each deleted node's incomers to its outgoers. */
module Deletion {
  import opened SkillTree
  import opened Walks
  import opened Store

  /** The edge "a->b" the reconnection creates. */
  function Bridge(a: NodeId, b: NodeId): Edge {
    Edge(EdgeId(a, b), a, b, None)
  }

  /** `outgoers.map(t => edge a->t)`. */
  function Row(a: Node, outs: seq<Node>): (r: seq<Edge>)
    ensures |r| == |outs|
    ensures forall e :: e in r <==> exists b :: b in outs && e == Bridge(a.id, b.id)
  {
    if |outs| == 0 then []
    else
      assert forall b :: b in outs <==> b == outs[0] || b in outs[1..];
      [Bridge(a.id, outs[0].id)] + Row(a, outs[1..])
  }

  /** `incomers.flatMap(s => outgoers.map(t => edge s->t))`: one edge per
      (incomer, outgoer) pair, with no deduplication. */
  function CrossEdges(ins: seq<Node>, outs: seq<Node>): (r: seq<Edge>)
    ensures |r| == |ins| * |outs|
    ensures forall e :: e in r <==> exists a, b :: a in ins && b in outs && e == Bridge(a.id, b.id)
  {
    if |ins| == 0 then []
    else
      assert forall a :: a in ins <==> a == ins[0] || a in ins[1..];
      var rest := CrossEdges(ins[1..], outs);
      assert |ins| * |outs| == |outs| + (|ins| - 1) * |outs|;
      Row(ins[0], outs) + rest
  }

  /** The working node list and edge list of the fold. */
  datatype Work = Work(remaining: seq<Node>, edges: seq<Edge>)

  /** `e` is the bridge from an incomer of `k` to an outgoer of `k`. */
  predicate Bridged(w: Work, k: NodeId, e: Edge) {
    exists a, b :: a in Incomers(k, w.remaining, w.edges) && b in Outgoers(k, w.remaining, w.edges) && e == Bridge(a.id, b.id)
  }

  /** One round of the fold for `node`: incomers and outgoers are looked up
      among the remaining nodes through the current edges; the edges touching
      the node are dropped, the bridges appended, and the node leaves the
      remaining list. */
  function Step(w: Work, node: Node): (r: Work)
    ensures r.remaining == WithoutId(w.remaining, node.id)
    ensures forall e :: e in r.edges <==> (e in w.edges && !Touches(e, node.id)) || Bridged(w, node.id, e)
  {
    var ins := Incomers(node.id, w.remaining, w.edges);
    var outs := Outgoers(node.id, w.remaining, w.edges);
    Work(WithoutId(w.remaining, node.id), Untouching(w.edges, node.id) + CrossEdges(ins, outs))
  }

  /** `deleted.reduce(..., edges)` with `remainingNodes` shrinking as it goes. */
  function Reconnect(w: Work, deleted: seq<Node>): (r: Work)
    ensures Ids(r.remaining) == Ids(w.remaining) - Ids(deleted)
    decreases |deleted|
  {
    if |deleted| == 0 then w
    else
      assert Ids(deleted) == {deleted[0].id} + Ids(deleted[1..]) by {
        assert forall n :: n in deleted <==> n == deleted[0] || n in deleted[1..];
      }
      Reconnect(Step(w, deleted[0]), deleted[1..])
  }

  /** Every edge of a step is an old edge or a shortcut of two old edges. */
  lemma StepEdgesAreWalks(w: Work, node: Node)
    ensures forall x, y :: HasEdge(Step(w, node).edges, x, y) ==> Reaches(w.edges, x, y)
  {
    var r := Step(w, node);
    var ins := Incomers(node.id, w.remaining, w.edges);
    var outs := Outgoers(node.id, w.remaining, w.edges);
    forall x, y | HasEdge(r.edges, x, y) ensures Reaches(w.edges, x, y) {
      var e :| e in r.edges && e.source == x && e.target == y;
      if e in w.edges {
        EdgeReaches(w.edges, x, y);
      } else {
        var a, b :| a in ins && b in outs && e == Bridge(a.id, b.id);
        var e1 :| e1 in w.edges && e1.target == node.id && Find(w.remaining, e1.source) == Some(a);
        var e2 :| e2 in w.edges && e2.source == node.id && Find(w.remaining, e2.target) == Some(b);
        EdgeReaches(w.edges, x, node.id);
        EdgeReaches(w.edges, node.id, y);
        ReachesTrans(w.edges, x, node.id, y);
      }
    }
  }

  /** An old edge not touching the deleted node survives the step. */
  lemma StepKeepsEdge(w: Work, node: Node, x: NodeId, y: NodeId)
    requires HasEdge(w.edges, x, y) && x != node.id && y != node.id
    ensures HasEdge(Step(w, node).edges, x, y)
  {
    var e :| e in w.edges && e.source == x && e.target == y;
    assert e in Step(w, node).edges;
  }

  /** Two old edges x->node->y between remaining nodes give the bridge x->y. */
  lemma StepBridges(w: Work, node: Node, x: NodeId, y: NodeId)
    requires HasEdge(w.edges, x, node.id) && HasEdge(w.edges, node.id, y)
    requires x in Ids(w.remaining) && y in Ids(w.remaining)
    ensures HasEdge(Step(w, node).edges, x, y)
  {
    var k := node.id;
    var e1 :| e1 in w.edges && e1.source == x && e1.target == k;
    var e2 :| e2 in w.edges && e2.source == k && e2.target == y;
    var a := Find(w.remaining, x).value;
    var b := Find(w.remaining, y).value;
    assert a in Incomers(k, w.remaining, w.edges);
    assert b in Outgoers(k, w.remaining, w.edges);
    assert Bridged(w, k, Bridge(a.id, b.id));
    assert Bridge(a.id, b.id) in Step(w, node).edges;
  }

  lemma WalkSuffix(edges: seq<Edge>, p: seq<NodeId>, d: nat)
    requires IsWalk(edges, p) && d <= |p| - 2
    ensures IsWalk(edges, p[d..])
  {
    var rest := p[d..];
    forall i | 0 <= i < |rest| - 1 ensures HasEdge(edges, rest[i], rest[i + 1]) {
      assert rest[i] == p[i + d] && rest[i + 1] == p[i + d + 1];
    }
  }

  predicate NoSelfLoops(edges: seq<Edge>) {
    forall e :: e in edges ==> e.source != e.target
  }

  /** A visit x->node->y to the deleted node, x a remaining node, is
      replaced by the bridge x->y, and y is not the deleted node. */
  lemma StepShortcut(w: Work, node: Node, x: NodeId, y: NodeId)
    requires WellFormed(w.remaining, w.edges) && NoSelfLoops(w.edges)
    requires HasEdge(w.edges, x, node.id) && HasEdge(w.edges, node.id, y)
    ensures y != node.id
    ensures HasEdge(Step(w, node).edges, x, y)
  {
    var e1 :| e1 in w.edges && e1.source == x && e1.target == node.id;
    var e2 :| e2 in w.edges && e2.source == node.id && e2.target == y;
    StepBridges(w, node, x, y);
  }

  /** A walk of the old edges between two nodes other than the deleted one
      is matched by a walk of the new edges: each visit to the deleted node
      is replaced by the bridge from its predecessor to its successor. */
  lemma {:induction false} StepKeepsWalk(w: Work, node: Node, p: seq<NodeId>)
    requires WellFormed(w.remaining, w.edges) && NoSelfLoops(w.edges)
    requires IsWalk(w.edges, p) && p[0] != node.id && p[|p| - 1] != node.id
    ensures Reaches(Step(w, node).edges, p[0], p[|p| - 1])
    decreases |p|
  {
    var r := Step(w, node).edges;
    var k := node.id;
    assert HasEdge(w.edges, p[0], p[1]);
    var next := if p[1] != k then 1 else 2;
    if p[1] != k {
      StepKeepsEdge(w, node, p[0], p[1]);
    } else {
      assert HasEdge(w.edges, p[1], p[2]);
      StepShortcut(w, node, p[0], p[2]);
    }
    EdgeReaches(r, p[0], p[next]);
    if next < |p| - 1 {
      WalkSuffix(w.edges, p, next);
      StepKeepsWalk(w, node, p[next..]);
      ReachesTrans(r, p[0], p[next], p[|p| - 1]);
    }
  }

  /** One step keeps the graph acyclic with every edge joining remaining
      nodes, and keeps reachability between the remaining nodes exactly. */
  lemma StepKeepsGraph(w: Work, node: Node)
    requires WellFormed(w.remaining, w.edges) && Acyclic(w.edges)
    ensures WellFormed(Step(w, node).remaining, Step(w, node).edges)
    ensures Acyclic(Step(w, node).edges)
    ensures forall a, b :: a != node.id && b != node.id ==>
      (Reaches(Step(w, node).edges, a, b) <==> Reaches(w.edges, a, b))
  {
    var r := Step(w, node);
    var k := node.id;
    StepEdgesAreWalks(w, node);
    Simulate(r.edges, w.edges);
    forall e | e in r.edges ensures e.source in Ids(r.remaining) && e.target in Ids(r.remaining) {
      if e in w.edges && !Touches(e, k) {
      } else {
        var a, b :| a in Incomers(k, w.remaining, w.edges) && b in Outgoers(k, w.remaining, w.edges) && e == Bridge(a.id, b.id);
        var e1 :| e1 in w.edges && e1.target == k && Find(w.remaining, e1.source) == Some(a);
        var e2 :| e2 in w.edges && e2.source == k && Find(w.remaining, e2.target) == Some(b);
        AcyclicNoSelfLoop(w.edges, e1);
        AcyclicNoSelfLoop(w.edges, e2);
      }
    }
    forall a, b | a != k && b != k && Reaches(w.edges, a, b) ensures Reaches(r.edges, a, b) {
      var p :| IsWalk(w.edges, p) && p[0] == a && p[|p| - 1] == b;
      forall e | e in w.edges ensures e.source != e.target {
        AcyclicNoSelfLoop(w.edges, e);
      }
      StepKeepsWalk(w, node, p);
    }
  }

  /** The fold as a whole: the graph stays acyclic, every edge joins nodes
      that were not deleted, and two surviving nodes are connected by a walk
      afterwards exactly when they were before. */
  lemma {:induction false} ReconnectKeepsGraph(w: Work, deleted: seq<Node>)
    requires WellFormed(w.remaining, w.edges) && Acyclic(w.edges)
    ensures Ids(Reconnect(w, deleted).remaining) == Ids(w.remaining) - Ids(deleted)
    ensures WellFormed(Reconnect(w, deleted).remaining, Reconnect(w, deleted).edges)
    ensures Acyclic(Reconnect(w, deleted).edges)
    ensures forall a, b :: a !in Ids(deleted) && b !in Ids(deleted) ==>
      (Reaches(Reconnect(w, deleted).edges, a, b) <==> Reaches(w.edges, a, b))
    decreases |deleted|
  {
    if |deleted| > 0 {
      var node := deleted[0];
      StepKeepsGraph(w, node);
      ReconnectKeepsGraph(Step(w, node), deleted[1..]);
      assert Ids(deleted) == {node.id} + Ids(deleted[1..]) by {
        assert forall n :: n in deleted <==> n == node || n in deleted[1..];
      }
      var last := Reconnect(w, deleted).edges;
      assert last == Reconnect(Step(w, node), deleted[1..]).edges;
      forall a, b | a !in Ids(deleted) && b !in Ids(deleted)
        ensures Reaches(last, a, b) <==> Reaches(w.edges, a, b)
      {
        assert a != node.id && b != node.id;
        assert a !in Ids(deleted[1..]) && b !in Ids(deleted[1..]);
      }
    }
  }

  /** After the fold no edge has a deleted node as an endpoint, provided the
      graph was acyclic: see `SelfLoopBridge` for a cycle whose nodes are all deleted. */
  lemma ReconnectDetaches(nodes: seq<Node>, edges: seq<Edge>, deleted: seq<Node>)
    requires WellFormed(nodes, edges) && Acyclic(edges)
    ensures forall e :: e in Reconnect(Work(nodes, edges), deleted).edges ==>
      e.source !in Ids(deleted) && e.target !in Ids(deleted)
  {
    ReconnectKeepsGraph(Work(nodes, edges), deleted);
  }

  /** The `onNodesDelete` callback: `incSkillPointsAvailable` with the costs
      of the deleted unlocked nodes, then `setEdges` with the fold, which
      starts from the edges and nodes the callback closed over. */
  function OnNodesDelete(s: State, deleted: seq<Node>): (r: State)
    ensures r.available - s.available == UnlockedCost(deleted)
    ensures r.edges == Reconnect(Work(s.nodes, s.edges), deleted).edges
    ensures r.nodes == s.nodes && r.spent == s.spent && r.errorText == s.errorText
  {
    SetEdges(IncAvailable(s, UnlockedCost(deleted)), Reconnect(Work(s.nodes, s.edges), deleted).edges)
  }

  /** The nodes React Flow hands the callback: those with a doomed id, in order. */
  function Doomed(nodes: seq<Node>, doomed: set<NodeId>): (r: seq<Node>)
    ensures forall n :: n in r <==> n in nodes && n.id in doomed
    ensures Ids(r) == Ids(nodes) * doomed
  {
    if |nodes| == 0 then []
    else
      assert forall x :: x in nodes <==> x == nodes[0] || x in nodes[1..];
      (if nodes[0].id in doomed then [nodes[0]] else []) + Doomed(nodes[1..], doomed)
  }

  /** The nodes React Flow keeps when it removes the doomed ones. */
  function Survivors(nodes: seq<Node>, doomed: set<NodeId>): (r: seq<Node>)
    ensures forall n :: n in r <==> n in nodes && n.id !in doomed
    ensures Ids(r) == Ids(nodes) - doomed
  {
    if |nodes| == 0 then []
    else
      assert forall x :: x in nodes <==> x == nodes[0] || x in nodes[1..];
      (if nodes[0].id in doomed then [] else [nodes[0]]) + Survivors(nodes[1..], doomed)
  }

  /** The unlocked costs split between the survivors and the deleted nodes. */
  lemma {:induction false} SplitUnlockedCost(nodes: seq<Node>, doomed: set<NodeId>)
    ensures UnlockedCost(Survivors(nodes, doomed)) + UnlockedCost(Doomed(nodes, doomed)) == UnlockedCost(nodes)
  {
    if |nodes| > 0 {
      SplitUnlockedCost(nodes[1..], doomed);
      var kept := if nodes[0].id in doomed then [] else [nodes[0]];
      var gone := if nodes[0].id in doomed then [nodes[0]] else [];
      UnlockedCostAppend(kept, Survivors(nodes[1..], doomed));
      UnlockedCostAppend(gone, Doomed(nodes[1..], doomed));
    }
  }

  /** A node whose id no later node carries keeps the ids distinct. */
  lemma UniqueCons(n: Node, rest: seq<Node>)
    requires UniqueIds(rest) && forall m :: m in rest ==> m.id != n.id
    ensures UniqueIds([n] + rest)
  {
    var all := [n] + rest;
    forall i, j | 0 <= i < j < |all| ensures all[i].id != all[j].id {
      assert all[j] == rest[j - 1];
      if i > 0 {
        assert all[i] == rest[i - 1];
      }
    }
  }

  /** Removing nodes keeps the ids of the others distinct. */
  lemma {:induction false} SurvivorsUnique(nodes: seq<Node>, doomed: set<NodeId>)
    requires UniqueIds(nodes)
    ensures UniqueIds(Survivors(nodes, doomed))
  {
    if |nodes| > 0 {
      SurvivorsUnique(nodes[1..], doomed);
      var rest := Survivors(nodes[1..], doomed);
      if nodes[0].id !in doomed {
        assert Survivors(nodes, doomed) == [nodes[0]] + rest;
        forall m | m in rest ensures m.id != nodes[0].id {
          var j :| 0 <= j < |nodes[1..]| && nodes[1..][j] == m;
          assert nodes[j + 1] == m;
        }
        UniqueCons(nodes[0], rest);
      } else {
        assert Survivors(nodes, doomed) == rest;
      }
    }
  }

  /** A user deletion of the nodes with the doomed ids: the callback runs on
      them and React Flow removes them from the node list. */
  function DeleteNodes(s: State, doomed: set<NodeId>): (r: State)
    ensures forall n :: n in r.nodes <==> n in s.nodes && n.id !in doomed
    ensures Ids(r.nodes) == Ids(s.nodes) - doomed
    ensures r.available == s.available + UnlockedCost(Doomed(s.nodes, doomed))
    ensures r.spent == s.spent && r.errorText == s.errorText
  {
    OnNodesDelete(s, Doomed(s.nodes, doomed)).(nodes := Survivors(s.nodes, doomed))
  }

  /** Deleting keeps the graph acyclic, leaves no edge dangling, and keeps
      every dependency chain between surviving nodes. */
  lemma DeleteKeepsGraph(s: State, doomed: set<NodeId>)
    requires WellFormed(s.nodes, s.edges) && Acyclic(s.edges)
    ensures WellFormed(DeleteNodes(s, doomed).nodes, DeleteNodes(s, doomed).edges)
    ensures Acyclic(DeleteNodes(s, doomed).edges)
    ensures forall a, b :: a !in doomed && b !in doomed ==>
      (Reaches(DeleteNodes(s, doomed).edges, a, b) <==> Reaches(s.edges, a, b))
  {
    var deleted := Doomed(s.nodes, doomed);
    ReconnectKeepsGraph(Work(s.nodes, s.edges), deleted);
    var r := DeleteNodes(s, doomed);
    assert Ids(r.nodes) == Ids(s.nodes) - Ids(deleted);
    forall a, b | a !in doomed && b !in doomed
      ensures Reaches(r.edges, a, b) <==> Reaches(s.edges, a, b)
    {
      assert a !in Ids(deleted) && b !in Ids(deleted);
    }
  }

  /** The round for the only node of a self-loop drops the loop and bridges
      the node to itself. */
  lemma SelfLoopStep(k: Node, e: Edge)
    requires e.source == k.id && e.target == k.id
    ensures Step(Work([k], [e]), k) == Work([], [Bridge(k.id, k.id)])
  {
    assert [k][1..] == [] && [e][1..] == [];
    assert Find([k], k.id) == Some(k);
    assert Incomers(k.id, [k], [e]) == [k];
    assert Outgoers(k.id, [k], [e]) == [k];
    assert WithoutId([k], k.id) == [];
    assert Untouching([e], k.id) == [];
    assert CrossEdges([k], [k]) == [Bridge(k.id, k.id)];
  }

  /** When every node of a cycle is deleted, the fold bridges the last of
      them to itself: deleting the only node of a self-loop leaves the edge
      "k->k" pointing at a node that is gone. */
  lemma SelfLoopBridge(k: Node, e: Edge)
    requires e.source == k.id && e.target == k.id
    ensures var r := DeleteNodes(State([k], [e], 0, 0, None), {k.id});
      && r.nodes == [] && r.edges == [Bridge(k.id, k.id)]
      && !WellFormed(r.nodes, r.edges)
  {
    var w := Work([k], [e]);
    SelfLoopStep(k, e);
    assert [k][1..] == [];
    assert Reconnect(w, [k]) == Step(w, k);
    assert Doomed([k], {k.id}) == [k];
    assert Survivors([k], {k.id}) == [];
  }
}
