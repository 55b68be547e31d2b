/** The skill-tree node component: the guard on its lock toggle, the toggle
    itself, and the edit submitted from its dialog. */
module SkillNode {
  import opened SkillTree
  import opened Text
  import opened Store

  /** Which endpoint of a connection names the node to inspect. */
  datatype End = SourceEnd | TargetEnd

  function EndOf(e: Edge, end: End): NodeId {
    match end
    case SourceEnd => e.source
    case TargetEnd => e.target
  }

  /** `nodes.find(...)?.data.unlocked`: the flag of the first node with the
      id, or undefined when no node has it. */
  function FlagOf(nodes: seq<Node>, id: NodeId): (r: Option<bool>)
    ensures Truthy(r) <==> UnlockedId(nodes, id)
  {
    match Find(nodes, id)
    case None => None
    case Some(n) => n.data.unlocked
  }

  /** The test `some` applies to one connection: with `checkForLocked` the
      inspected node must be locked or missing, otherwise unlocked. */
  predicate Hit(nodes: seq<Node>, e: Edge, end: End, checkForLocked: bool) {
    var flag := FlagOf(nodes, EndOf(e, end));
    if checkForLocked then !Truthy(flag) else Truthy(flag)
  }

  /** What the test asks of the node an id names, in terms of the lookup. */
  predicate Passes(nodes: seq<Node>, id: NodeId, checkForLocked: bool) {
    if checkForLocked then !UnlockedId(nodes, id) else UnlockedId(nodes, id)
  }

  /** `areSomeConnectionsUnlocked`: false for no connections, else whether
      some connection's inspected endpoint passes the test. */
  function AreSomeConnectionsUnlocked(conns: seq<Edge>, nodes: seq<Node>, end: End, checkForLocked: bool): (b: bool)
    ensures b <==> exists e :: e in conns && Passes(nodes, EndOf(e, end), checkForLocked)
  {
    if |conns| == 0 then false
    else
      assert forall x :: x in conns <==> x == conns[0] || x in conns[1..];
      Hit(nodes, conns[0], end, checkForLocked) || AreSomeConnectionsUnlocked(conns[1..], nodes, end, checkForLocked)
  }

  /** The toggle button of node `n` is disabled: some prerequisite is
      locked, some dependant is unlocked, or unlocking would overdraw the
      points. */
  function ToggleDisabled(s: State, n: Node): (b: bool)
    ensures !b <==>
      && (forall e :: e in s.edges && e.target == n.id ==> UnlockedId(s.nodes, e.source))
      && (forall e :: e in s.edges && e.source == n.id ==> !UnlockedId(s.nodes, e.target))
      && (Truthy(n.data.unlocked) || n.data.cost <= s.available - s.spent)
  {
    var upstreamLocked := AreSomeConnectionsUnlocked(EdgesInto(s.edges, n.id), s.nodes, SourceEnd, true);
    var downstreamUnlocked := AreSomeConnectionsUnlocked(EdgesOutOf(s.edges, n.id), s.nodes, TargetEnd, false);
    upstreamLocked || downstreamUnlocked || (!Truthy(n.data.unlocked) && s.available - s.spent - n.data.cost < 0)
  }

  /** The toggle's update: `{unlocked: !data.unlocked}`. */
  function TogglePatch(d: NodeData): (p: Patch)
    ensures Merge(d, p) == d.(unlocked := Some(!Truthy(d.unlocked)))
    ensures Committed(Merge(d, p)) == if Truthy(d.unlocked) then 0 else d.cost
  {
    Patch(None, None, Omitted, Given(!Truthy(d.unlocked)))
  }

  /** A click on the toggle of node `n`: nothing while it is disabled,
      otherwise the flag flips and the points follow it. */
  function Toggle(s: State, n: Node): (r: State)
    requires n in s.nodes
    ensures ToggleDisabled(s, n) ==> r == s
    ensures !ToggleDisabled(s, n) ==> r.nodes == UpdateNodes(s.nodes, n.id, TogglePatch(n.data))
    ensures r.edges == s.edges && r.available == s.available && r.errorText == s.errorText
    ensures !ToggleDisabled(s, n) && UniqueIds(s.nodes) ==>
      r.spent == s.spent + (if Truthy(n.data.unlocked) then -n.data.cost else n.data.cost)
    ensures !ToggleDisabled(s, n) && UniqueIds(s.nodes) && !Truthy(n.data.unlocked) ==> r.spent <= r.available
  {
    if ToggleDisabled(s, n) then s
    else
      assert exists k :: 0 <= k < |s.nodes| && s.nodes[k] == n;
      EditNode(s, n.id, TogglePatch(n.data))
  }

  /** With unique ids the toggle's update commits exactly what the flag now
      says, so the as-written edit and the corrected one agree on it. */
  lemma ToggleAgrees(s: State, k: nat)
    requires UniqueIds(s.nodes) && k < |s.nodes|
    ensures var p := TogglePatch(s.nodes[k].data);
      EditNode(s, s.nodes[k].id, p) == EditNodeCommitted(s, s.nodes[k].id, p)
  {
    var p := TogglePatch(s.nodes[k].data);
    UpdateNodesCostUnique(s.nodes, k, p);
  }

  /** `handleEditSubmit`: the title and the description are trimmed again; a
      missing description is passed as `undefined`, which erases the stored
      one. The flag is not part of the update. */
  function EditPatch(sub: Submission): (p: Patch)
    ensures p.title == Some(Trim(sub.title)) && p.cost == Some(sub.cost)
    ensures sub.description.None? ==> p.description == Undefined
    ensures sub.description.Some? ==> p.description == Given(Trim(sub.description.value))
    ensures p.unlocked == Omitted
  {
    Patch(Some(Trim(sub.title)), Some(sub.cost),
          if sub.description.Some? then Given(Trim(sub.description.value)) else Undefined,
          Omitted)
  }

  /** A submission the dialog produced: trimmed title and description. */
  predicate Trimmed(sub: Submission) {
    Trim(sub.title) == sub.title && (sub.description.Some? ==> Trim(sub.description.value) == sub.description.value)
  }

  /** The dialog's edit of node `id`, through the store's action as written:
      a node carrying the id takes the submission's values and keeps its flag. */
  function EditSubmit(s: State, id: NodeId, sub: Submission): (r: State)
    ensures r.nodes == UpdateNodes(s.nodes, id, EditPatch(sub))
    ensures r.edges == s.edges && r.available == s.available
    ensures Trimmed(sub) ==> forall k :: 0 <= k < |s.nodes| && s.nodes[k].id == id ==>
      r.nodes[k].data == NodeData(sub.title, sub.cost, sub.description, s.nodes[k].data.unlocked)
  {
    EditNode(s, id, EditPatch(sub))
  }
}
