/** The layout wrapper: Dagre's layered layout places each node's centre;
    the wrapper moves that anchor to the node's top-left corner. */
module Layout {
  import opened SkillTree

  /** Dagre's answer for the graph at hand: the centre of each node, by id.
      The layered layout itself is not modelled. */
  type Centres = NodeId -> Point

  datatype Layouted = Layouted(nodes: seq<Node>, edges: seq<Edge>)

  /** The measured width, 0 while unmeasured (`node.measured?.width ?? 0`). */
  function Width(n: Node): real {
    if n.measured.Some? && n.measured.value.width.Some? then n.measured.value.width.value else 0.0
  }

  /** The measured height, 0 while unmeasured. */
  function Height(n: Node): real {
    if n.measured.Some? && n.measured.value.height.Some? then n.measured.value.height.value else 0.0
  }

  /** The node with its top-left corner placed so that its centre is Dagre's. */
  function Place(n: Node, centres: Centres): (r: Node)
    ensures r == n.(position := r.position)
    ensures r.position.x + Width(n) / 2.0 == centres(n.id).x
    ensures r.position.y + Height(n) / 2.0 == centres(n.id).y
  {
    var c := centres(n.id);
    n.(position := Point(c.x - Width(n) / 2.0, c.y - Height(n) / 2.0))
  }

  /** `getLayoutedElements`: one placed node per input node, in order, and the
      edges passed through. */
  function LayoutElements(nodes: seq<Node>, edges: seq<Edge>, centres: Centres): (r: Layouted)
    ensures r.edges == edges
    ensures |r.nodes| == |nodes|
    ensures forall i :: 0 <= i < |nodes| ==> r.nodes[i] == nodes[i].(position := r.nodes[i].position)
    ensures forall i :: 0 <= i < |nodes| ==>
      r.nodes[i].position.x + Width(nodes[i]) / 2.0 == centres(nodes[i].id).x &&
      r.nodes[i].position.y + Height(nodes[i]) / 2.0 == centres(nodes[i].id).y
    ensures Ids(r.nodes) == Ids(nodes)
    ensures UniqueIds(nodes) ==> UniqueIds(r.nodes)
  {
    var placed := seq(|nodes|, i requires 0 <= i < |nodes| => Place(nodes[i], centres));
    assert Ids(placed) == Ids(nodes) by {
      forall x | x in Ids(nodes) ensures x in Ids(placed) {
        var n :| n in nodes && n.id == x;
        var i :| 0 <= i < |nodes| && nodes[i] == n;
        assert placed[i].id == x;
      }
    }
    Layouted(placed, edges)
  }

  /** Layout moves nodes only: the points committed by unlocked nodes stay. */
  lemma LayoutKeepsUnlockedCost(nodes: seq<Node>, edges: seq<Edge>, centres: Centres)
    ensures UnlockedCost(LayoutElements(nodes, edges, centres).nodes) == UnlockedCost(nodes)
  {
    UnlockedCostSameData(LayoutElements(nodes, edges, centres).nodes, nodes);
  }

  /** Layout changes no node's flag, so no id's unlocked status changes. */
  lemma LayoutKeepsUnlockedIds(nodes: seq<Node>, edges: seq<Edge>, centres: Centres, id: NodeId)
    ensures UnlockedId(LayoutElements(nodes, edges, centres).nodes, id) == UnlockedId(nodes, id)
  {
    UnlockedIdSameData(LayoutElements(nodes, edges, centres).nodes, nodes, id);
  }
}
