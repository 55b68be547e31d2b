/** The connection validator: `isValidConnection` and its depth-first
    `hasCycle` search. */
module Validator {
  import opened SkillTree
  import opened Walks

  const UnlockedTargetText := "Cannot add prerequisites to an unlocked node."
  const CycleText := "Cannot create cyclic dependencies."

  /** The edges the search can follow: those whose target node exists. */
  function Live(nodes: seq<Node>, edges: seq<Edge>): (r: seq<Edge>)
    ensures forall e :: e in r <==> e in edges && e.target in Ids(nodes)
  {
    if |edges| == 0 then []
    else
      assert forall x :: x in edges <==> x == edges[0] || x in edges[1..];
      (if edges[0].target in Ids(nodes) then [edges[0]] else []) + Live(nodes, edges[1..])
  }

  /** With every edge joining existing nodes, the search follows every edge. */
  lemma LiveWhenWellFormed(nodes: seq<Node>, edges: seq<Edge>)
    requires WellFormed(nodes, edges)
    ensures forall a, b :: Reaches(edges, a, b) ==> Reaches(Live(nodes, edges), a, b)
  {
    SubgraphReaches(edges, Live(nodes, edges));
  }

  /** The outcome of a search: whether `source` was met, and the visited set. */
  datatype Search = Search(found: bool, visited: set<NodeId>)

  /** Every node the search entered since `before` had all its followable
      successors visited, and none of them is `source`. */
  ghost predicate Explored(nodes: seq<Node>, edges: seq<Edge>, source: NodeId, before: set<NodeId>, after: set<NodeId>) {
    forall e :: e in edges && e.source in after && e.source !in before && e.target in Ids(nodes) ==>
      e.target != source && e.target in after
  }

  /** `hasCycle(node, visited)`: a node already visited yields false; otherwise
      it is marked and its outgoers are tried in order. The visited set is
      threaded through the calls as the one shared `Set` is in the program. */
  function Dfs(nodes: seq<Node>, edges: seq<Edge>, source: NodeId, v: NodeId, visited: set<NodeId>): (r: Search)
    requires v in Ids(nodes)
    ensures visited <= r.visited
    ensures r.found ==> Reaches(Live(nodes, edges), v, source)
    ensures !r.found ==> v in r.visited && Explored(nodes, edges, source, visited, r.visited)
    decreases Ids(nodes) - visited, 0
  {
    if v in visited then Search(false, visited)
    else
      var outs := Outgoers(v, nodes, edges);
      assert forall o :: o in outs ==> o.id in Ids(nodes);
      var r := DfsList(nodes, edges, source, outs, visited + {v});
      assert r.found ==> Reaches(Live(nodes, edges), v, source) by {
        if r.found {
          var o :| o in outs && (o.id == source || Reaches(Live(nodes, edges), o.id, source));
          var e :| e in edges && e.source == v && Find(nodes, e.target) == Some(o);
          assert e in Live(nodes, edges);
          EdgeReaches(Live(nodes, edges), v, o.id);
          if o.id != source {
            ReachesTrans(Live(nodes, edges), v, o.id, source);
          }
        }
      }
      assert !r.found ==> Explored(nodes, edges, source, visited, r.visited) by {
        if !r.found {
          forall e | e in edges && e.source in r.visited && e.source !in visited && e.target in Ids(nodes)
            ensures e.target != source && e.target in r.visited
          {
            if e.source == v {
              var o := Find(nodes, e.target).value;
              assert o in outs;
            }
          }
        }
      }
      r
  }

  /** The loop over the outgoers: an outgoer equal to `source` ends the
      search at once; otherwise each is searched from in turn. */
  function DfsList(nodes: seq<Node>, edges: seq<Edge>, source: NodeId, outs: seq<Node>, visited: set<NodeId>): (r: Search)
    requires forall o :: o in outs ==> o.id in Ids(nodes)
    ensures visited <= r.visited
    ensures r.found ==> exists o :: o in outs && (o.id == source || Reaches(Live(nodes, edges), o.id, source))
    ensures !r.found ==> (forall o :: o in outs ==> o.id != source && o.id in r.visited)
    ensures !r.found ==> Explored(nodes, edges, source, visited, r.visited)
    decreases Ids(nodes) - visited, 1, |outs|
  {
    if |outs| == 0 then Search(false, visited)
    else if outs[0].id == source then Search(true, visited)
    else
      var first := Dfs(nodes, edges, source, outs[0].id, visited);
      if first.found then first
      else
        assert Ids(nodes) - first.visited <= Ids(nodes) - visited;
        var rest := DfsList(nodes, edges, source, outs[1..], first.visited);
        assert forall o :: o in outs ==> o == outs[0] || o in outs[1..];
        rest
  }

  /** A search that ends without meeting `source` has visited every node
      reachable from where it started, and `source` is not one of them. */
  lemma {:induction false} NotFoundWalk(nodes: seq<Node>, edges: seq<Edge>, source: NodeId, visited: set<NodeId>, p: seq<NodeId>, k: nat)
    requires Explored(nodes, edges, source, {}, visited)
    requires IsWalk(Live(nodes, edges), p) && p[0] in visited
    requires k < |p|
    ensures p[k] in visited
    ensures k > 0 ==> p[k] != source
  {
    if k > 0 {
      NotFoundWalk(nodes, edges, source, visited, p, k - 1);
      assert HasEdge(Live(nodes, edges), p[k - 1], p[k]);
      var e :| e in Live(nodes, edges) && e.source == p[k - 1] && e.target == p[k];
    }
  }

  /** `hasCycle(target)`, with a fresh visited set. */
  function HasCycle(nodes: seq<Node>, edges: seq<Edge>, source: NodeId, target: NodeId): (b: bool)
    requires target in Ids(nodes)
    ensures b <==> Reaches(Live(nodes, edges), target, source)
  {
    var r := Dfs(nodes, edges, source, target, {});
    assert !r.found ==> !Reaches(Live(nodes, edges), target, source) by {
      if !r.found && Reaches(Live(nodes, edges), target, source) {
        var p :| IsWalk(Live(nodes, edges), p) && p[0] == target && p[|p| - 1] == source;
        NotFoundWalk(nodes, edges, source, r.visited, p, |p| - 1);
      }
    }
    r.found
  }

  datatype Verdict = Verdict(ok: bool, state: State)

  /** `isValidConnection`: the target must exist and differ from the source
      (else a silent rejection), must not be unlocked, and must not reach the
      source; only the diagnostic text of the state changes. */
  function IsValidConnection(s: State, c: Connection): (v: Verdict)
    ensures v.state == s.(errorText := v.state.errorText)
    ensures c.target !in Ids(s.nodes) || c.target == c.source ==> v == Verdict(false, s)
    ensures c.target in Ids(s.nodes) && c.target != c.source && UnlockedId(s.nodes, c.target) ==>
      v == Verdict(false, s.(errorText := Some(UnlockedTargetText)))
    ensures c.target in Ids(s.nodes) && c.target != c.source && !UnlockedId(s.nodes, c.target) ==>
      v == if Reaches(Live(s.nodes, s.edges), c.target, c.source)
           then Verdict(false, s.(errorText := Some(CycleText)))
           else Verdict(true, s.(errorText := None))
  {
    var target := Find(s.nodes, c.target);
    if target.None? then Verdict(false, s)
    else if target.value.id == c.source then Verdict(false, s)
    else if Truthy(target.value.data.unlocked) then Verdict(false, s.(errorText := Some(UnlockedTargetText)))
    else if HasCycle(s.nodes, s.edges, c.source, target.value.id) then Verdict(false, s.(errorText := Some(CycleText)))
    else Verdict(true, s.(errorText := None))
  }

  /** An accepted connection names an existing, locked target other than its
      source, from which the source cannot be reached. */
  lemma AcceptedConnection(s: State, c: Connection)
    requires WellFormed(s.nodes, s.edges)
    ensures IsValidConnection(s, c).ok <==>
      c.target in Ids(s.nodes) && c.target != c.source && !UnlockedId(s.nodes, c.target) && !Reaches(s.edges, c.target, c.source)
  {
    LiveWhenWellFormed(s.nodes, s.edges);
    SubgraphReaches(Live(s.nodes, s.edges), s.edges);
  }

  /** The main safety property: adding an accepted edge to an acyclic graph
      whose edges join existing nodes leaves it acyclic. */
  lemma AcceptedEdgeKeepsAcyclic(s: State, c: Connection, id: string)
    requires WellFormed(s.nodes, s.edges)
    requires Acyclic(s.edges)
    requires IsValidConnection(s, c).ok
    ensures Acyclic(s.edges + [Edge(id, c.source, c.target, None)])
  {
    AcceptedConnection(s, c);
    ExtendAcyclic(s.edges, Edge(id, c.source, c.target, None));
  }
}
