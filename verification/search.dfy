/** The search highlight: nodes whose label contains the query are marked,
    the nodes connected to them are collected by a breadth-first traversal
    that ignores edge direction, and the rest are faded. */
module Search {
  import opened SkillTree
  import opened Text

  const MatchedClass := " ring-2 ring-blue-400"
  const FadedClass := " opacity-30"
  const ReachedClass := " opacity-85"

  /** The lower-cased label contains the (trimmed, lower-cased) query. */
  predicate Matches(n: Node, query: string)
    ensures Matches(n, query) <==> exists i :: OccursAt(Lower(n.data.title), query, i)
  {
    Contains(Lower(n.data.title), query)
  }

  /** The ids of the matching nodes: `matchingIds`. */
  function MatchIds(nodes: seq<Node>, query: string): (r: set<NodeId>)
    ensures r <= Ids(nodes)
    ensures forall n :: n in nodes && Matches(n, query) ==> n.id in r
    ensures UniqueIds(nodes) ==> forall n :: n in nodes && n.id in r ==> Matches(n, query)
  {
    set n | n in nodes && Matches(n, query) :: n.id
  }

  /** The endpoint of `e` that is not `id` (the source when `id` is neither). */
  function Neighbour(e: Edge, id: NodeId): NodeId {
    if e.source == id then e.target else e.source
  }

  /** A set of ids no edge leaves or enters: both endpoints or neither. */
  ghost predicate Closed(edges: seq<Edge>, s: set<NodeId>) {
    forall e :: e in edges ==> (e.source in s <==> e.target in s)
  }

  /** `x` lies in every closed set containing the seeds: it is connected to a
      seed when edge direction is ignored. */
  ghost predicate InClosure(edges: seq<Edge>, seeds: set<NodeId>, x: NodeId) {
    forall s :: seeds <= s && Closed(edges, s) ==> x in s
  }

  function Endpoints(edges: seq<Edge>): set<NodeId> {
    (set e | e in edges :: e.source) + (set e | e in edges :: e.target)
  }

  predicate Distinct(q: seq<NodeId>) {
    forall i, j :: 0 <= i < j < |q| ==> q[i] != q[j]
  }

  /** Every edge with an endpoint that is collected, no longer queued and not
      in `skip` has its other endpoint collected too. */
  ghost predicate Settled(edges: seq<Edge>, collected: set<NodeId>, queue: seq<NodeId>, skip: set<NodeId>) {
    forall e :: e in edges ==>
      (e.source in collected && e.source !in queue && e.source !in skip ==> e.target in collected) &&
      (e.target in collected && e.target !in queue && e.target !in skip ==> e.source in collected)
  }

  /** Every collected id is connected to a seed. */
  ghost predicate Sound(edges: seq<Edge>, seeds: set<NodeId>, collected: set<NodeId>) {
    forall x :: x in collected ==> InClosure(edges, seeds, x)
  }

  /** The queue holds collected ids, each once. */
  predicate Queued(queue: seq<NodeId>, collected: set<NodeId>) {
    Distinct(queue) && forall x :: x in queue ==> x in collected
  }

  /** One dequeued id: each connection's other endpoint that is not yet
      collected is collected and enqueued. */
  method Visit(edges: seq<Edge>, ghost seeds: set<NodeId>, current: NodeId, collected0: set<NodeId>, queue0: seq<NodeId>)
    returns (collected: set<NodeId>, queue: seq<NodeId>)
    requires current in collected0 && current !in queue0
    requires Queued(queue0, collected0)
    requires Sound(edges, seeds, collected0)
    ensures collected0 <= collected <= collected0 + Endpoints(edges)
    ensures Queued(queue, collected) && current !in queue
    ensures Sound(edges, seeds, collected)
    ensures collected == collected0 ==> queue == queue0
    ensures Settled(edges, collected0, queue0, {current}) ==> Settled(edges, collected, queue, {})
  {
    var connections := Touching(edges, current);
    collected, queue := collected0, queue0;
    ghost var settled := Settled(edges, collected0, queue0, {current});
    for i := 0 to |connections|
      invariant collected0 <= collected <= collected0 + Endpoints(edges)
      invariant Queued(queue, collected) && current !in queue
      invariant Sound(edges, seeds, collected)
      invariant collected == collected0 ==> queue == queue0
      invariant settled ==> Settled(edges, collected, queue, {current})
      invariant forall j :: 0 <= j < i ==> Neighbour(connections[j], current) in collected
    {
      var e := connections[i];
      var neighbour := if e.source == current then e.target else e.source;
      if neighbour !in collected {
        assert InClosure(edges, seeds, neighbour) by {
          forall s | seeds <= s && Closed(edges, s) ensures neighbour in s {
            assert InClosure(edges, seeds, current);
            assert e in edges;
          }
        }
        collected := collected + {neighbour};
        queue := queue + [neighbour];
      }
    }
    forall e | e in edges && Touches(e, current) ensures Neighbour(e, current) in collected {
      assert e in connections;
    }
  }

  /** The traversal: `collected` starts as the seeds and the queue as their
      list; each dequeued id is visited, so each id is enqueued at most once.
      The result is the least closed set containing the seeds. */
  method Collect(edges: seq<Edge>, seeds: seq<NodeId>) returns (collected: set<NodeId>)
    requires Distinct(seeds)
    ensures forall x :: x in seeds ==> x in collected
    ensures Closed(edges, collected)
    ensures forall x :: x in collected <==> InClosure(edges, (set y | y in seeds), x)
  {
    var seedSet := set x | x in seeds;
    ghost var universe := seedSet + Endpoints(edges);
    collected := seedSet;
    var queue := seeds;
    while |queue| > 0
      invariant seedSet <= collected <= universe
      invariant Queued(queue, collected)
      invariant Settled(edges, collected, queue, {})
      invariant Sound(edges, seedSet, collected)
      decreases universe - collected, |queue|
    {
      var current := queue[0];
      assert Settled(edges, collected, queue[1..], {current});
      collected, queue := Visit(edges, seedSet, current, collected, queue[1..]);
    }
    forall x | InClosure(edges, seedSet, x) ensures x in collected {
      assert seedSet <= collected && Closed(edges, collected);
    }
  }

  /** `displayNodes`/`displayEdges`: an empty or blank query shows the graph
      as stored; otherwise every node gets exactly one class suffix and every
      edge is animated exactly when its source was collected. */
  method Highlight(query: string, nodes: seq<Node>, edges: seq<Edge>) returns (shown: seq<Node>, drawn: seq<Edge>)
    ensures AllSpace(query) ==> shown == nodes && drawn == edges
    ensures !AllSpace(query) ==>
      var q := Lower(Trim(query));
      var matched := MatchIds(nodes, q);
      && |shown| == |nodes|
      && (forall i :: 0 <= i < |nodes| ==>
            var base := if nodes[i].className.Some? then nodes[i].className.value else "";
            shown[i] == nodes[i].(className := Some(base +
              if nodes[i].id in matched then MatchedClass
              else if !InClosure(edges, matched, nodes[i].id) then FadedClass
              else ReachedClass)))
      && |drawn| == |edges|
      && (forall i :: 0 <= i < |edges| ==>
            drawn[i] == edges[i].(animated := Some(InClosure(edges, matched, edges[i].source))))
  {
    var q := Lower(Trim(query));
    TrimEmpty(query);
    if q == [] {
      return nodes, edges;
    }
    var matched: set<NodeId> := {};
    var seeds: seq<NodeId> := [];
    for i := 0 to |nodes|
      invariant matched == set n | n in nodes[..i] && Matches(n, q) :: n.id
      invariant Distinct(seeds)
      invariant forall x :: x in seeds <==> x in matched
    {
      assert nodes[..i + 1] == nodes[..i] + [nodes[i]];
      if Matches(nodes[i], q) && nodes[i].id !in matched {
        seeds := seeds + [nodes[i].id];
      }
      if Matches(nodes[i], q) {
        matched := matched + {nodes[i].id};
      }
    }
    assert nodes[..|nodes|] == nodes;
    assert (set x | x in seeds) == matched;
    var collected := Collect(edges, seeds);
    shown := seq(|nodes|, i requires 0 <= i < |nodes| =>
      var base := if nodes[i].className.Some? then nodes[i].className.value else "";
      nodes[i].(className := Some(base +
        if nodes[i].id in matched then MatchedClass
        else if nodes[i].id !in collected then FadedClass
        else ReachedClass)));
    drawn := seq(|edges|, i requires 0 <= i < |edges| => edges[i].(animated := Some(edges[i].source in collected)));
  }

  /** A node joined by an edge to a match is collected, whichever way the
      edge points: with the edge n1->n2 and n1 matching, n2 is reached and
      gets the reached suffix, not the faded one. */
  lemma EdgeJoinsClosure(edges: seq<Edge>, seeds: set<NodeId>, e: Edge)
    requires e in edges && (e.source in seeds || e.target in seeds)
    ensures InClosure(edges, seeds, e.source) && InClosure(edges, seeds, e.target)
  {
    forall s | seeds <= s && Closed(edges, s) ensures e.source in s && e.target in s {
      assert e.source in s <==> e.target in s;
    }
  }
}
