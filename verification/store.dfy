/** The store's actions: add a node, connect, edit a node, and the two
    counter increments. */
module Store {
  import opened SkillTree
  import opened Walks
  import opened Layout
  import Validator

  /** `Partial<NodeData>` as `editNode` receives it. */
  datatype Patch = Patch(title: Option<string>, cost: Option<int>, description: Slot<string>, unlocked: Slot<bool>)

  /** `{...node.data, ...data}`: each key the patch carries overrides the stored one. */
  function Merge(d: NodeData, p: Patch): (r: NodeData)
    ensures r.title == (if p.title.Some? then p.title.value else d.title)
    ensures r.cost == (if p.cost.Some? then p.cost.value else d.cost)
    ensures r.description == Spread(d.description, p.description)
    ensures r.unlocked == Spread(d.unlocked, p.unlocked)
  {
    NodeData(
      if p.title.Some? then p.title.value else d.title,
      if p.cost.Some? then p.cost.value else d.cost,
      Spread(d.description, p.description),
      Spread(d.unlocked, p.unlocked))
  }

  /** The `nodes.map` of `editNode`: nodes with the id get the merged data,
      every other node is returned as it was. */
  function UpdateNodes(nodes: seq<Node>, id: NodeId, p: Patch): (r: seq<Node>)
    ensures |r| == |nodes|
    ensures forall i :: 0 <= i < |nodes| && nodes[i].id != id ==> r[i] == nodes[i]
    ensures forall i :: 0 <= i < |nodes| && nodes[i].id == id ==> r[i] == nodes[i].(data := Merge(nodes[i].data, p))
    ensures Ids(r) == Ids(nodes)
    ensures UniqueIds(nodes) ==> UniqueIds(r)
  {
    var r := seq(|nodes|, i requires 0 <= i < |nodes| =>
      if nodes[i].id == id then nodes[i].(data := Merge(nodes[i].data, p)) else nodes[i]);
    assert Ids(r) == Ids(nodes) by {
      forall x | x in Ids(nodes) ensures x in Ids(r) {
        var i :| 0 <= i < |nodes| && nodes[i].id == x;
        assert r[i].id == x;
      }
    }
    r
  }

  /** The total change the map's callback makes to `skillPointsSpent`, one
      `delta` per node carrying the id. */
  function Shift(nodes: seq<Node>, id: NodeId, delta: NodeData -> int): int {
    if |nodes| == 0 then 0
    else (if nodes[0].id == id then delta(nodes[0].data) else 0) + Shift(nodes[1..], id, delta)
  }

  lemma {:induction false} ShiftAbsent(nodes: seq<Node>, id: NodeId, delta: NodeData -> int)
    requires id !in Ids(nodes)
    ensures Shift(nodes, id, delta) == 0
  {
    if |nodes| > 0 {
      assert nodes[0] in nodes;
      assert forall n :: n in nodes[1..] ==> n in nodes;
      ShiftAbsent(nodes[1..], id, delta);
    }
  }

  /** With unique ids exactly one node carries the id, so one delta is applied. */
  lemma {:induction false} ShiftUnique(nodes: seq<Node>, k: nat, delta: NodeData -> int)
    requires UniqueIds(nodes) && k < |nodes|
    ensures Shift(nodes, nodes[k].id, delta) == delta(nodes[k].data)
  {
    var id := nodes[k].id;
    if k == 0 {
      assert id !in Ids(nodes[1..]) by {
        forall n | n in nodes[1..] ensures n.id != id {
          var j :| 0 <= j < |nodes[1..]| && nodes[1..][j] == n;
          assert nodes[j + 1] == n;
        }
      }
      ShiftAbsent(nodes[1..], id, delta);
    } else {
      assert nodes[0].id != id;
      assert nodes[1..][k - 1] == nodes[k];
      ShiftUnique(nodes[1..], k - 1, delta);
    }
  }

  /** The change `editNode` makes to `skillPointsSpent` for one matching node,
      as the code computes it: the strict `!==` on the flag sees an omitted
      `unlocked` as `undefined`, different from a stored `true` or `false`. */
  function AsWrittenDelta(d: NodeData, p: Patch): (r: int)
    ensures p.unlocked.Omitted? && Truthy(d.unlocked) ==> r == -d.cost
    ensures p.unlocked.Omitted? && d.unlocked == Some(false) ==> r == d.cost
    ensures p.cost.None? && p.unlocked == Given(!Truthy(d.unlocked)) ==> r == CommittedDelta(d, p)
  {
    if d.unlocked != Read(p.unlocked) then (if Truthy(d.unlocked) then -d.cost else d.cost)
    else if Truthy(d.unlocked) && p.cost.Some? && p.cost.value != 0 then p.cost.value - d.cost
    else 0
  }

  /** `editNode(nodeId, data)` as written. */
  function EditNode(s: State, id: NodeId, p: Patch): (r: State)
    ensures r.edges == s.edges && r.available == s.available && r.errorText == s.errorText
    ensures r.nodes == UpdateNodes(s.nodes, id, p)
    ensures id !in Ids(s.nodes) ==> r == s
    ensures forall k :: UniqueIds(s.nodes) && 0 <= k < |s.nodes| && s.nodes[k].id == id ==>
      var d := s.nodes[k].data;
      r.spent - s.spent ==
        if d.unlocked != Read(p.unlocked) then (if Truthy(d.unlocked) then -d.cost else d.cost)
        else if Truthy(d.unlocked) && p.cost.Some? && p.cost.value != 0 then p.cost.value - d.cost
        else 0
  {
    var delta := d => AsWrittenDelta(d, p);
    var r := s.(nodes := UpdateNodes(s.nodes, id, p), spent := s.spent + Shift(s.nodes, id, delta));
    assert id !in Ids(s.nodes) ==> r == s by {
      if id !in Ids(s.nodes) {
        ShiftAbsent(s.nodes, id, delta);
        assert UpdateNodes(s.nodes, id, p) == s.nodes;
      }
    }
    assert forall k :: UniqueIds(s.nodes) && 0 <= k < |s.nodes| && s.nodes[k].id == id ==>
      r.spent - s.spent == AsWrittenDelta(s.nodes[k].data, p) by {
      forall k | UniqueIds(s.nodes) && 0 <= k < |s.nodes| && s.nodes[k].id == id
        ensures r.spent - s.spent == AsWrittenDelta(s.nodes[k].data, p)
      {
        ShiftUnique(s.nodes, k, delta);
      }
    }
    r
  }

  /** The change in committed points when a node's data is patched. */
  function CommittedDelta(d: NodeData, p: Patch): int {
    Committed(Merge(d, p)) - Committed(d)
  }

  lemma {:induction false} UpdateNodesCost(nodes: seq<Node>, id: NodeId, p: Patch)
    ensures UnlockedCost(UpdateNodes(nodes, id, p)) == UnlockedCost(nodes) + Shift(nodes, id, d => CommittedDelta(d, p))
  {
    if |nodes| > 0 {
      UpdateNodesCost(nodes[1..], id, p);
      assert UpdateNodes(nodes, id, p)[1..] == UpdateNodes(nodes[1..], id, p);
    }
  }

  /** With unique ids, patching one node moves the committed points by that
      node's change alone. */
  lemma UpdateNodesCostUnique(nodes: seq<Node>, k: nat, p: Patch)
    requires UniqueIds(nodes) && k < |nodes|
    ensures UnlockedCost(UpdateNodes(nodes, nodes[k].id, p)) == UnlockedCost(nodes) + CommittedDelta(nodes[k].data, p)
  {
    UpdateNodesCost(nodes, nodes[k].id, p);
    ShiftUnique(nodes, k, d => CommittedDelta(d, p));
  }

  /** Looking a node up after the update finds the node found before,
      patched when it carries the updated id. */
  lemma {:induction false} FindUpdated(nodes: seq<Node>, id: NodeId, p: Patch, x: NodeId)
    ensures Find(UpdateNodes(nodes, id, p), x) ==
      match Find(nodes, x)
      case None => None
      case Some(m) => Some(if m.id == id then m.(data := Merge(m.data, p)) else m)
  {
    if |nodes| > 0 && nodes[0].id != x {
      FindUpdated(nodes[1..], id, p, x);
      assert UpdateNodes(nodes, id, p)[1..] == UpdateNodes(nodes[1..], id, p);
    }
  }

  /** `editNode` as evidently intended: spent moves by exactly the change in
      the points the edited node commits, so it keeps tracking the costs of
      the unlocked nodes whatever keys the patch carries. */
  function EditNodeCommitted(s: State, id: NodeId, p: Patch): (r: State)
    ensures r.edges == s.edges && r.available == s.available && r.errorText == s.errorText
    ensures r.nodes == UpdateNodes(s.nodes, id, p)
    ensures r.spent - UnlockedCost(r.nodes) == s.spent - UnlockedCost(s.nodes)
  {
    UpdateNodesCost(s.nodes, id, p);
    s.(nodes := UpdateNodes(s.nodes, id, p), spent := s.spent + Shift(s.nodes, id, d => CommittedDelta(d, p)))
  }

  /** `addNode`: a new node with the given fields and no flag is appended
      and the whole graph is laid out again. */
  function AddNode(s: State, id: NodeId, title: string, cost: int, description: Option<string>, centres: Centres): (r: State)
    requires id !in Ids(s.nodes)
    ensures |r.nodes| == |s.nodes| + 1
    ensures forall i :: 0 <= i < |s.nodes| ==> r.nodes[i] == s.nodes[i].(position := r.nodes[i].position)
    ensures r.nodes[|s.nodes|] == Node(id, "skillTree", NodeData(title, cost, description, None),
                                       r.nodes[|s.nodes|].position, None, None)
    ensures r.edges == s.edges && r.available == s.available && r.spent == s.spent && r.errorText == s.errorText
    ensures Ids(r.nodes) == Ids(s.nodes) + {id}
    ensures UniqueIds(s.nodes) ==> UniqueIds(r.nodes)
  {
    var added := Node(id, "skillTree", NodeData(title, cost, description, None), Point(0.0, 0.0), None, None);
    var laid := LayoutElements(s.nodes + [added], s.edges, centres);
    assert Ids(s.nodes + [added]) == Ids(s.nodes) + {id} by {
      assert forall n :: n in s.nodes + [added] <==> n in s.nodes || n == added;
    }
    assert (s.nodes + [added])[|s.nodes|] == added;
    s.(nodes := laid.nodes, edges := laid.edges)
  }

  /** React Flow's `addEdge`, taken here to append the edge "source->target"
      unless an edge between the same two nodes is already present. */
  function AddEdge(c: Connection, edges: seq<Edge>): (r: seq<Edge>)
    ensures HasEdge(edges, c.source, c.target) ==> r == edges
    ensures !HasEdge(edges, c.source, c.target) ==> r == edges + [Edge(EdgeId(c.source, c.target), c.source, c.target, None)]
  {
    if exists e :: e in edges && e.source == c.source && e.target == c.target then edges
    else edges + [Edge(EdgeId(c.source, c.target), c.source, c.target, None)]
  }

  /** `onConnect`: the edge is added and the graph laid out again. */
  function OnConnect(s: State, c: Connection, centres: Centres): (r: State)
    ensures r.edges == AddEdge(c, s.edges)
    ensures |r.nodes| == |s.nodes|
    ensures forall i :: 0 <= i < |s.nodes| ==> r.nodes[i] == s.nodes[i].(position := r.nodes[i].position)
    ensures r.available == s.available && r.spent == s.spent && r.errorText == s.errorText
  {
    var laid := LayoutElements(s.nodes, AddEdge(c, s.edges), centres);
    s.(nodes := laid.nodes, edges := laid.edges)
  }

  /** `setEdges`: the edge list is replaced; nothing else changes. */
  function SetEdges(s: State, edges: seq<Edge>): (r: State)
    ensures r.edges == edges
    ensures r.(edges := s.edges) == s
  {
    s.(edges := edges)
  }

  /** `incSkillPointsAvailable(points)`: only the available counter moves. */
  function IncAvailable(s: State, points: int): (r: State)
    ensures r.available - s.available == points
    ensures r.(available := s.available) == s
  {
    s.(available := s.available + points)
  }

  /** `incSkillPointsSpent(points)`: only the spent counter moves. */
  function IncSpent(s: State, points: int): (r: State)
    ensures r.spent - s.spent == points
    ensures r.(spent := s.spent) == s
  {
    s.(spent := s.spent + points)
  }

  /** A connection the validator accepts, added to an acyclic graph, leaves
      the graph acyclic and every edge joining existing nodes. */
  lemma ConnectKeepsGraph(s: State, c: Connection, centres: Centres)
    requires WellFormed(s.nodes, s.edges) && Acyclic(s.edges)
    requires c.source in Ids(s.nodes)
    requires Validator.IsValidConnection(s, c).ok
    ensures Acyclic(OnConnect(s, c, centres).edges)
    ensures WellFormed(OnConnect(s, c, centres).nodes, OnConnect(s, c, centres).edges)
  {
    var r := OnConnect(s, c, centres);
    assert Ids(r.nodes) == Ids(s.nodes) by {
      assert r.nodes == LayoutElements(s.nodes, AddEdge(c, s.edges), centres).nodes;
    }
    if !HasEdge(s.edges, c.source, c.target) {
      Validator.AcceptedEdgeKeepsAcyclic(s, c, EdgeId(c.source, c.target));
      Validator.AcceptedConnection(s, c);
    }
  }
}
