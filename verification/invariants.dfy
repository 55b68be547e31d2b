/** What the editor keeps true across user actions: the points ledger, the
    prerequisite order of unlocked nodes, and the shape of the graph. */
module Invariants {
  import opened SkillTree
  import opened Walks
  import opened Layout
  import opened Store
  import Validator
  import opened Deletion
  import opened SkillNode

  /** The points granted so far with the header buttons: what is left to
      spend plus what the unlocked nodes commit. Deletion refunds the cost
      of an unlocked node to the available points, so the ledger balances
      this sum rather than `spent` against the unlocked costs. */
  function Granted(s: State): int {
    s.available - s.spent + UnlockedCost(s.nodes)
  }

  lemma AddNodeKeepsGranted(s: State, id: NodeId, title: string, cost: int, description: Option<string>, centres: Centres)
    requires id !in Ids(s.nodes)
    ensures Granted(AddNode(s, id, title, cost, description, centres)) == Granted(s)
  {
    var r := AddNode(s, id, title, cost, description, centres);
    var added := Node(id, "skillTree", NodeData(title, cost, description, None), Point(0.0, 0.0), None, None);
    var grown := s.nodes + [added];
    assert forall i :: 0 <= i < |s.nodes| ==> grown[i] == s.nodes[i];
    UnlockedCostSameData(r.nodes, grown);
    UnlockedCostAppend(s.nodes, [added]);
  }

  lemma ConnectKeepsGranted(s: State, c: Connection, centres: Centres)
    ensures Granted(OnConnect(s, c, centres)) == Granted(s)
  {
    UnlockedCostSameData(OnConnect(s, c, centres).nodes, s.nodes);
  }

  /** A toggle moves spent and the unlocked costs by the same amount. */
  lemma ToggleKeepsGranted(s: State, n: Node)
    requires UniqueIds(s.nodes) && n in s.nodes
    ensures Granted(Toggle(s, n)) == Granted(s)
  {
    if !ToggleDisabled(s, n) {
      var k :| 0 <= k < |s.nodes| && s.nodes[k] == n;
      ToggleAgrees(s, k);
    }
  }

  /** Deleting refunds to `available` exactly what the deleted nodes committed. */
  lemma DeleteKeepsGranted(s: State, doomed: set<NodeId>)
    ensures Granted(DeleteNodes(s, doomed)) == Granted(s)
  {
    SplitUnlockedCost(s.nodes, doomed);
  }

  /** The corrected edit keeps the ledger whatever the patch. */
  lemma EditCommittedKeepsGranted(s: State, id: NodeId, p: Patch)
    ensures Granted(EditNodeCommitted(s, id, p)) == Granted(s)
  {
  }

  /** The as-written edit does not: a dialog edit of an unlocked node with
      cost 3 resets spent to 0 while the node stays unlocked. */
  lemma DialogEditBreaksGranted()
    ensures var n := Node("a", "skillTree", NodeData("A", 3, None, Some(true)), Point(0.0, 0.0), None, None);
      var s := State([n], [], 3, 3, None);
      var r := EditSubmit(s, "a", Submission("A", 3, None));
      && r.spent == 0 && UnlockedId(r.nodes, "a")
      && Granted(s) == 3 && Granted(r) == 6
  {
    var n := Node("a", "skillTree", NodeData("A", 3, None, Some(true)), Point(0.0, 0.0), None, None);
    var s := State([n], [], 3, 3, None);
    var p := EditPatch(Submission("A", 3, None));
    assert UniqueIds(s.nodes);
    var r := EditNode(s, "a", p);
    assert r.spent - s.spent == -3;
    var edited := r.nodes[0];
    assert edited.data.unlocked == Some(true);
    assert r.nodes == [edited];
    assert UnlockedCost(r.nodes) == 3 by {
      assert r.nodes[1..] == [];
    }
    assert Find(r.nodes, "a") == Some(edited);
  }

  /** Every dependant that is unlocked has its prerequisite unlocked. */
  predicate Prerequisites(nodes: seq<Node>, edges: seq<Edge>) {
    forall e :: e in edges && UnlockedId(nodes, e.target) ==> UnlockedId(nodes, e.source)
  }

  /** Along a walk ending at an unlocked node, every node is unlocked. */
  lemma {:induction false} PrerequisitesAlongWalk(nodes: seq<Node>, edges: seq<Edge>, p: seq<NodeId>, k: nat)
    requires Prerequisites(nodes, edges) && IsWalk(edges, p) && k < |p|
    requires UnlockedId(nodes, p[|p| - 1])
    ensures UnlockedId(nodes, p[k])
    decreases |p| - k
  {
    if k < |p| - 1 {
      PrerequisitesAlongWalk(nodes, edges, p, k + 1);
      assert HasEdge(edges, p[k], p[k + 1]);
    }
  }

  /** The flag lookup after a toggle: only the toggled id reads differently. */
  lemma UnlockedAfterToggle(nodes: seq<Node>, k: nat, x: NodeId)
    requires UniqueIds(nodes) && k < |nodes|
    ensures UnlockedId(UpdateNodes(nodes, nodes[k].id, TogglePatch(nodes[k].data)), x) ==
      if x == nodes[k].id then !Truthy(nodes[k].data.unlocked) else UnlockedId(nodes, x)
  {
    FindUpdated(nodes, nodes[k].id, TogglePatch(nodes[k].data), x);
    FindUnique(nodes, k);
  }

  /** The guard lets a node be unlocked only after its prerequisites and
      locked only before its dependants. */
  lemma ToggleKeepsPrerequisites(s: State, n: Node)
    requires UniqueIds(s.nodes) && n in s.nodes
    requires Prerequisites(s.nodes, s.edges)
    ensures Prerequisites(Toggle(s, n).nodes, Toggle(s, n).edges)
  {
    if !ToggleDisabled(s, n) {
      var k :| 0 <= k < |s.nodes| && s.nodes[k] == n;
      var r := Toggle(s, n);
      forall e | e in r.edges && UnlockedId(r.nodes, e.target) ensures UnlockedId(r.nodes, e.source) {
        UnlockedAfterToggle(s.nodes, k, e.target);
        UnlockedAfterToggle(s.nodes, k, e.source);
      }
    }
  }

  /** A patch that leaves the flag out changes no flag lookup. */
  lemma UnlockedAfterEdit(nodes: seq<Node>, id: NodeId, p: Patch, x: NodeId)
    requires p.unlocked.Omitted?
    ensures UnlockedId(UpdateNodes(nodes, id, p), x) == UnlockedId(nodes, x)
  {
    FindUpdated(nodes, id, p, x);
  }

  /** The dialog's edit leaves every flag, so the order is kept. */
  lemma EditKeepsPrerequisites(s: State, id: NodeId, sub: Submission)
    requires Prerequisites(s.nodes, s.edges)
    ensures Prerequisites(EditNodeCommitted(s, id, EditPatch(sub)).nodes, s.edges)
    ensures Prerequisites(EditSubmit(s, id, sub).nodes, s.edges)
  {
    var nodes := UpdateNodes(s.nodes, id, EditPatch(sub));
    forall e | e in s.edges && UnlockedId(nodes, e.target) ensures UnlockedId(nodes, e.source) {
      UnlockedAfterEdit(s.nodes, id, EditPatch(sub), e.target);
      UnlockedAfterEdit(s.nodes, id, EditPatch(sub), e.source);
    }
  }

  /** A validated connection points at a locked node, so the order is kept. */
  lemma ConnectKeepsPrerequisites(s: State, c: Connection, centres: Centres)
    requires Prerequisites(s.nodes, s.edges)
    requires Validator.IsValidConnection(s, c).ok
    ensures Prerequisites(OnConnect(s, c, centres).nodes, OnConnect(s, c, centres).edges)
  {
    var r := OnConnect(s, c, centres);
    forall e | e in r.edges && UnlockedId(r.nodes, e.target) ensures UnlockedId(r.nodes, e.source) {
      LayoutKeepsUnlockedIds(s.nodes, AddEdge(c, s.edges), centres, e.target);
      LayoutKeepsUnlockedIds(s.nodes, AddEdge(c, s.edges), centres, e.source);
    }
  }

  /** Appending a node without a flag changes no lookup of the others' flags. */
  lemma {:induction false} UnlockedAppend(nodes: seq<Node>, added: Node, x: NodeId)
    requires !Truthy(added.data.unlocked)
    ensures UnlockedId(nodes + [added], x) == UnlockedId(nodes, x)
  {
    if |nodes| > 0 && nodes[0].id != x {
      UnlockedAppend(nodes[1..], added, x);
      assert (nodes + [added])[1..] == nodes[1..] + [added];
    }
  }

  lemma AddNodeKeepsPrerequisites(s: State, id: NodeId, title: string, cost: int, description: Option<string>, centres: Centres)
    requires id !in Ids(s.nodes)
    requires Prerequisites(s.nodes, s.edges)
    ensures Prerequisites(AddNode(s, id, title, cost, description, centres).nodes, s.edges)
  {
    var r := AddNode(s, id, title, cost, description, centres);
    var added := Node(id, "skillTree", NodeData(title, cost, description, None), Point(0.0, 0.0), None, None);
    assert r.nodes == LayoutElements(s.nodes + [added], s.edges, centres).nodes;
    forall e | e in s.edges && UnlockedId(r.nodes, e.target) ensures UnlockedId(r.nodes, e.source) {
      LayoutKeepsUnlockedIds(s.nodes + [added], s.edges, centres, e.target);
      LayoutKeepsUnlockedIds(s.nodes + [added], s.edges, centres, e.source);
      UnlockedAppend(s.nodes, added, e.target);
      UnlockedAppend(s.nodes, added, e.source);
    }
  }

  /** Removing other nodes changes no lookup of a surviving id. */
  lemma {:induction false} FindSurvivor(nodes: seq<Node>, doomed: set<NodeId>, x: NodeId)
    requires x !in doomed
    ensures Find(Survivors(nodes, doomed), x) == Find(nodes, x)
  {
    if |nodes| > 0 {
      var rest := Survivors(nodes[1..], doomed);
      FindSurvivor(nodes[1..], doomed, x);
      if nodes[0].id !in doomed {
        assert Survivors(nodes, doomed) == [nodes[0]] + rest;
        assert ([nodes[0]] + rest)[1..] == rest;
      } else {
        assert Survivors(nodes, doomed) == rest;
      }
    }
  }

  /** A reconnection edge stands for a walk of old edges, so the order
      carries over from the old graph. */
  lemma DeleteKeepsPrerequisites(s: State, doomed: set<NodeId>)
    requires WellFormed(s.nodes, s.edges) && Acyclic(s.edges)
    requires Prerequisites(s.nodes, s.edges)
    ensures Prerequisites(DeleteNodes(s, doomed).nodes, DeleteNodes(s, doomed).edges)
  {
    var r := DeleteNodes(s, doomed);
    DeleteKeepsGraph(s, doomed);
    forall e | e in r.edges && UnlockedId(r.nodes, e.target) ensures UnlockedId(r.nodes, e.source) {
      assert e.source !in doomed && e.target !in doomed;
      FindSurvivor(s.nodes, doomed, e.target);
      FindSurvivor(s.nodes, doomed, e.source);
      EdgeReaches(r.edges, e.source, e.target);
      var p :| IsWalk(s.edges, p) && p[0] == e.source && p[|p| - 1] == e.target;
      PrerequisitesAlongWalk(s.nodes, s.edges, p, 0);
    }
  }
}
