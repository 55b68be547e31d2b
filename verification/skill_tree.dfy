/** The entities of the skill-tree editor: nodes, edges, the store's state,
    and the lookups over them that the React Flow helpers provide. */
module SkillTree {

  datatype Option<T> = None | Some(value: T)

  /** One key of a partial update, as an object spread sees it: the key is
      left out (the stored value survives), is present but `undefined` (the
      stored value is erased), or carries a value. */
  datatype Slot<T> = Omitted | Undefined | Given(value: T)

  /** What reading the key yields: `undefined` unless a value is given. */
  function Read<T>(s: Slot<T>): (r: Option<T>)
    ensures r.Some? <==> s.Given?
    ensures r.Some? ==> r.value == s.value
  {
    match s
    case Given(v) => Some(v)
    case _ => None
  }

  /** The stored value after spreading the slot over it. */
  function Spread<T>(stored: Option<T>, s: Slot<T>): (r: Option<T>)
    ensures s.Omitted? ==> r == stored
    ensures !s.Omitted? ==> r == Read(s)
  {
    match s
    case Omitted => stored
    case Undefined => None
    case Given(v) => Some(v)
  }

  type NodeId = string

  datatype Point = Point(x: real, y: real)

  /** The size the canvas has measured; either side may still be missing. */
  datatype Measured = Measured(width: Option<real>, height: Option<real>)

  /** `title` holds the program's `label` (a reserved word here); `unlocked`
      is three-valued: absent (`None`), false or true. */
  datatype NodeData = NodeData(title: string, cost: int, description: Option<string>, unlocked: Option<bool>)

  datatype Node = Node(
    id: NodeId,
    kind: string,
    data: NodeData,
    position: Point,
    measured: Option<Measured>,
    className: Option<string>)

  /** A prerequisite edge: `source` must be unlocked before `target`. */
  datatype Edge = Edge(id: string, source: NodeId, target: NodeId, animated: Option<bool>)

  /** A proposed edge, as the canvas hands it to the validator. */
  datatype Connection = Connection(source: NodeId, target: NodeId)

  /** The node dialog's output: the fields of a node a user may type. */
  datatype Submission = Submission(title: string, cost: int, description: Option<string>)

  /** The store: graph, the two point counters and the diagnostic text. */
  datatype State = State(
    nodes: seq<Node>,
    edges: seq<Edge>,
    available: int,
    spent: int,
    errorText: Option<string>)

  /** JavaScript truthiness of the three-valued flag. */
  predicate Truthy(flag: Option<bool>) {
    flag == Some(true)
  }

  /** The id the reconnection step gives an edge: "source->target". */
  function EdgeId(source: NodeId, target: NodeId): (r: string)
    ensures |r| == |source| + 2 + |target|
    ensures r[..|source|] == source && r[|source| + 2..] == target
  {
    source + "->" + target
  }

  function Ids(nodes: seq<Node>): set<NodeId> {
    set n | n in nodes :: n.id
  }

  predicate UniqueIds(nodes: seq<Node>) {
    forall i, j :: 0 <= i < j < |nodes| ==> nodes[i].id != nodes[j].id
  }

  /** Every edge joins two nodes of the graph. */
  predicate WellFormed(nodes: seq<Node>, edges: seq<Edge>) {
    forall e :: e in edges ==> e.source in Ids(nodes) && e.target in Ids(nodes)
  }

  /** `nodes.find(n => n.id === id)`: the first node with that id. */
  function Find(nodes: seq<Node>, id: NodeId): (r: Option<Node>)
    ensures r.Some? <==> id in Ids(nodes)
    ensures r.Some? ==> r.value in nodes && r.value.id == id
  {
    if |nodes| == 0 then None
    else if nodes[0].id == id then Some(nodes[0])
    else
      assert forall n :: n in nodes <==> n == nodes[0] || n in nodes[1..];
      Find(nodes[1..], id)
  }

  /** The node found is the first one carrying the id. */
  lemma {:induction false} FindFirst(nodes: seq<Node>, id: NodeId, k: nat)
    requires k < |nodes| && nodes[k].id == id
    ensures Find(nodes, id).Some?
    ensures exists i :: 0 <= i <= k && Find(nodes, id) == Some(nodes[i]) && forall j :: 0 <= j < i ==> nodes[j].id != id
  {
    if nodes[0].id == id {
      assert Find(nodes, id) == Some(nodes[0]);
    } else {
      FindFirst(nodes[1..], id, k - 1);
      var i :| 0 <= i <= k - 1 && Find(nodes[1..], id) == Some(nodes[1..][i]) && forall j :: 0 <= j < i ==> nodes[1..][j].id != id;
      assert Find(nodes, id) == Some(nodes[i + 1]);
      forall j | 0 <= j < i + 1 ensures nodes[j].id != id {
        if j > 0 { assert nodes[j] == nodes[1..][j - 1]; }
      }
    }
  }

  /** With unique ids, the node at index k is the one found under its id. */
  lemma FindUnique(nodes: seq<Node>, k: nat)
    requires UniqueIds(nodes) && k < |nodes|
    ensures Find(nodes, nodes[k].id) == Some(nodes[k])
  {
    FindFirst(nodes, nodes[k].id, k);
  }

  /** The node with that id is unlocked; a missing node is not. */
  predicate UnlockedId(nodes: seq<Node>, id: NodeId) {
    var n := Find(nodes, id);
    n.Some? && Truthy(n.value.data.unlocked)
  }

  /** The points a node commits while it is unlocked. */
  function Committed(d: NodeData): int {
    if Truthy(d.unlocked) then d.cost else 0
  }

  /** The sum of the costs of the unlocked nodes. */
  function UnlockedCost(nodes: seq<Node>): int {
    if |nodes| == 0 then 0 else Committed(nodes[0].data) + UnlockedCost(nodes[1..])
  }

  /** Two node lists with the same data, node for node, commit the same points. */
  lemma {:induction false} UnlockedCostSameData(a: seq<Node>, b: seq<Node>)
    requires |a| == |b|
    requires forall i :: 0 <= i < |a| ==> a[i].data == b[i].data
    ensures UnlockedCost(a) == UnlockedCost(b)
  {
    if |a| > 0 {
      UnlockedCostSameData(a[1..], b[1..]);
    }
  }

  /** Two node lists with the same ids and data, node for node, agree on
      every id's unlocked status. */
  lemma {:induction false} UnlockedIdSameData(a: seq<Node>, b: seq<Node>, id: NodeId)
    requires |a| == |b|
    requires forall i :: 0 <= i < |a| ==> a[i].id == b[i].id && a[i].data == b[i].data
    ensures UnlockedId(a, id) == UnlockedId(b, id)
  {
    if |a| > 0 && a[0].id != id {
      UnlockedIdSameData(a[1..], b[1..], id);
    }
  }

  lemma UnlockedCostAppend(a: seq<Node>, b: seq<Node>)
    ensures UnlockedCost(a + b) == UnlockedCost(a) + UnlockedCost(b)
  {
    if |a| == 0 {
      assert a + b == b;
    } else {
      assert (a + b)[1..] == a[1..] + b;
      UnlockedCostAppend(a[1..], b);
    }
  }

  /** React Flow's `getOutgoers`: for each edge leaving `id`, in edge order,
      the node its target names, skipping targets that are not in `nodes`. */
  function Outgoers(id: NodeId, nodes: seq<Node>, edges: seq<Edge>): (r: seq<Node>)
    ensures forall m :: m in r <==> exists e :: e in edges && e.source == id && Find(nodes, e.target) == Some(m)
  {
    if |edges| == 0 then []
    else
      var rest := Outgoers(id, nodes, edges[1..]);
      var e := edges[0];
      assert forall x :: x in edges <==> x == e || x in edges[1..];
      if e.source == id && Find(nodes, e.target).Some? then [Find(nodes, e.target).value] + rest else rest
  }

  /** React Flow's `getIncomers`: the nodes named by the sources of the edges into `id`. */
  function Incomers(id: NodeId, nodes: seq<Node>, edges: seq<Edge>): (r: seq<Node>)
    ensures forall m :: m in r <==> exists e :: e in edges && e.target == id && Find(nodes, e.source) == Some(m)
  {
    if |edges| == 0 then []
    else
      var rest := Incomers(id, nodes, edges[1..]);
      var e := edges[0];
      assert forall x :: x in edges <==> x == e || x in edges[1..];
      if e.target == id && Find(nodes, e.source).Some? then [Find(nodes, e.source).value] + rest else rest
  }

  predicate Touches(e: Edge, id: NodeId) {
    e.source == id || e.target == id
  }

  /** The edges with `id` as an endpoint: `getConnectedEdges([node], edges)`
      and `getNodeConnections({nodeId: id})`. */
  function Touching(edges: seq<Edge>, id: NodeId): (r: seq<Edge>)
    ensures forall e :: e in r <==> e in edges && Touches(e, id)
  {
    if |edges| == 0 then []
    else
      assert forall x :: x in edges <==> x == edges[0] || x in edges[1..];
      (if Touches(edges[0], id) then [edges[0]] else []) + Touching(edges[1..], id)
  }

  /** The edges without `id` as an endpoint, in their order. */
  function Untouching(edges: seq<Edge>, id: NodeId): (r: seq<Edge>)
    ensures forall e :: e in r <==> e in edges && !Touches(e, id)
    ensures |r| <= |edges|
  {
    if |edges| == 0 then []
    else
      assert forall x :: x in edges <==> x == edges[0] || x in edges[1..];
      (if Touches(edges[0], id) then [] else [edges[0]]) + Untouching(edges[1..], id)
  }

  /** `getNodeConnections({nodeId: id, type: "target"})`: the edges into `id`. */
  function EdgesInto(edges: seq<Edge>, id: NodeId): (r: seq<Edge>)
    ensures forall e :: e in r <==> e in edges && e.target == id
  {
    if |edges| == 0 then []
    else
      assert forall x :: x in edges <==> x == edges[0] || x in edges[1..];
      (if edges[0].target == id then [edges[0]] else []) + EdgesInto(edges[1..], id)
  }

  /** `getNodeConnections({nodeId: id, type: "source"})`: the edges out of `id`. */
  function EdgesOutOf(edges: seq<Edge>, id: NodeId): (r: seq<Edge>)
    ensures forall e :: e in r <==> e in edges && e.source == id
  {
    if |edges| == 0 then []
    else
      assert forall x :: x in edges <==> x == edges[0] || x in edges[1..];
      (if edges[0].source == id then [edges[0]] else []) + EdgesOutOf(edges[1..], id)
  }

  /** `nodes.filter(n => n.id !== id)`. */
  function WithoutId(nodes: seq<Node>, id: NodeId): (r: seq<Node>)
    ensures forall n :: n in r <==> n in nodes && n.id != id
    ensures Ids(r) == Ids(nodes) - {id}
  {
    if |nodes| == 0 then []
    else
      assert forall x :: x in nodes <==> x == nodes[0] || x in nodes[1..];
      (if nodes[0].id == id then [] else [nodes[0]]) + WithoutId(nodes[1..], id)
  }
}
