/** A session of user actions on the editor, and the invariant every action
    keeps: distinct ids, no dangling edge, no cycle, unlocked nodes only
    after their prerequisites, and the points ledger. Edits go through the
    corrected `editNode`. */
module Session {
  import opened SkillTree
  import opened Walks
  import opened Layout
  import opened Store
  import Validator
  import opened Deletion
  import opened SkillNode
  import opened Header
  import opened Invariants

  /** What a user can do: the header buttons, the add dialog, dragging a
      connection, a node's toggle, edit dialog and delete. */
  datatype Action =
    | PlusClick
    | MinusClick
    | AddClick(sub: Submission, id: NodeId, centres: Centres)
    | ConnectDrag(c: Connection, centres: Centres)
    | ToggleClick(id: NodeId)
    | EditClick(id: NodeId, sub: Submission)
    | DeleteClick(doomed: set<NodeId>)

  /** A new node gets a fresh id, and a connection starts at a node on the canvas. */
  predicate Allowed(s: State, a: Action) {
    match a
    case AddClick(_, id, _) => id !in Ids(s.nodes)
    case ConnectDrag(c, _) => c.source in Ids(s.nodes)
    case _ => true
  }

  /** The canvas asks the validator first and connects only what it accepts:
      a rejection leaves the graph alone, an acceptance adds the edge, clears
      the diagnostic and moves nodes only; the counters never change. */
  function Connect(s: State, c: Connection, centres: Centres): (r: State)
    ensures r.available == s.available && r.spent == s.spent
    ensures r.errorText == Validator.IsValidConnection(s, c).state.errorText
    ensures !Validator.IsValidConnection(s, c).ok ==> r.nodes == s.nodes && r.edges == s.edges
    ensures Validator.IsValidConnection(s, c).ok ==>
      && r.edges == AddEdge(c, s.edges) && r.errorText == None
      && |r.nodes| == |s.nodes|
      && forall i :: 0 <= i < |s.nodes| ==> r.nodes[i] == s.nodes[i].(position := r.nodes[i].position)
  {
    var v := Validator.IsValidConnection(s, c);
    if v.ok then OnConnect(v.state, c, centres) else v.state
  }

  /** One action on the store. Only toggles and dialog edits move `spent`;
      only the header buttons and deletions move `available`; only
      connections and deletions change the edges; only additions and
      deletions change the set of node ids. */
  function Apply(s: State, a: Action): (r: State)
    requires Allowed(s, a)
    ensures r.spent != s.spent ==> a.ToggleClick? || a.EditClick?
    ensures r.available != s.available ==> a.PlusClick? || a.MinusClick? || a.DeleteClick?
    ensures r.edges != s.edges ==> a.ConnectDrag? || a.DeleteClick?
    ensures Ids(r.nodes) != Ids(s.nodes) ==> a.AddClick? || a.DeleteClick?
  {
    match a
    case PlusClick => Plus(s)
    case MinusClick => Minus(s)
    case AddClick(sub, id, centres) => AddSubmit(s, sub, id, centres)
    case ConnectDrag(c, centres) => Connect(s, c, centres)
    case ToggleClick(id) =>
      (match Find(s.nodes, id)
       case None => s
       case Some(n) => Toggle(s, n))
    case EditClick(id, sub) => EditNodeCommitted(s, id, EditPatch(sub))
    case DeleteClick(doomed) => DeleteNodes(s, doomed)
  }

  /** The points an action grants: one for plus, minus one for an enabled minus. */
  function Grant(s: State, a: Action): int {
    match a
    case PlusClick => 1
    case MinusClick => if DecDisabled(s) then 0 else -1
    case _ => 0
  }

  ghost predicate Invariant(s: State) {
    && UniqueIds(s.nodes)
    && WellFormed(s.nodes, s.edges)
    && Acyclic(s.edges)
    && Prerequisites(s.nodes, s.edges)
  }

  lemma ConnectKeeps(s: State, c: Connection, centres: Centres)
    requires Invariant(s) && c.source in Ids(s.nodes)
    ensures Invariant(Connect(s, c, centres))
    ensures Granted(Connect(s, c, centres)) == Granted(s)
  {
    var v := Validator.IsValidConnection(s, c);
    if v.ok {
      var t := v.state;
      assert Validator.IsValidConnection(t, c).ok;
      ConnectKeepsGraph(t, c, centres);
      ConnectKeepsPrerequisites(t, c, centres);
      ConnectKeepsGranted(t, c, centres);
      var r := OnConnect(t, c, centres);
      assert r.nodes == LayoutElements(t.nodes, AddEdge(c, t.edges), centres).nodes;
    }
  }

  lemma ToggleKeeps(s: State, id: NodeId)
    requires Invariant(s)
    ensures Invariant(Apply(s, ToggleClick(id)))
    ensures Granted(Apply(s, ToggleClick(id))) == Granted(s)
  {
    var found := Find(s.nodes, id);
    var r := Apply(s, ToggleClick(id));
    if found.Some? {
      var n := found.value;
      assert r == Toggle(s, n);
      ToggleKeepsPrerequisites(s, n);
      ToggleKeepsGranted(s, n);
      assert r.edges == s.edges;
      assert Ids(r.nodes) == Ids(s.nodes) && UniqueIds(r.nodes);
    } else {
      assert r == s;
    }
  }

  lemma AddKeeps(s: State, sub: Submission, id: NodeId, centres: Centres)
    requires Invariant(s) && id !in Ids(s.nodes)
    ensures Invariant(AddSubmit(s, sub, id, centres))
    ensures Granted(AddSubmit(s, sub, id, centres)) == Granted(s)
  {
    var title := Text.Trim(sub.title);
    var description := TrimDescription(sub.description);
    AddNodeKeepsPrerequisites(s, id, title, sub.cost, description, centres);
    AddNodeKeepsGranted(s, id, title, sub.cost, description, centres);
  }

  lemma DeleteKeeps(s: State, doomed: set<NodeId>)
    requires Invariant(s)
    ensures Invariant(DeleteNodes(s, doomed))
    ensures Granted(DeleteNodes(s, doomed)) == Granted(s)
  {
    DeleteKeepsGraph(s, doomed);
    DeleteKeepsPrerequisites(s, doomed);
    DeleteKeepsGranted(s, doomed);
    SurvivorsUnique(s.nodes, doomed);
  }

  /** Every allowed action keeps the invariant and moves the points granted
      by exactly what the action grants. */
  lemma ApplyKeeps(s: State, a: Action)
    requires Invariant(s) && Allowed(s, a)
    ensures Invariant(Apply(s, a))
    ensures Granted(Apply(s, a)) == Granted(s) + Grant(s, a)
  {
    match a
    case PlusClick =>
    case MinusClick =>
    case AddClick(sub, id, centres) => AddKeeps(s, sub, id, centres);
    case ConnectDrag(c, centres) => ConnectKeeps(s, c, centres);
    case ToggleClick(id) => ToggleKeeps(s, id);
    case EditClick(id, sub) => EditKeepsPrerequisites(s, id, sub);
    case DeleteClick(doomed) => DeleteKeeps(s, doomed);
  }

  /** Replaying actions in order; `None` when one is not allowed where it
      is taken. */
  function Run(s: State, acts: seq<Action>): Option<State>
    decreases |acts|
  {
    if |acts| == 0 then Some(s)
    else if !Allowed(s, acts[0]) then None
    else Run(Apply(s, acts[0]), acts[1..])
  }

  /** The points the header buttons grant along a replay, up to the first
      action that is not allowed. */
  function Grants(s: State, acts: seq<Action>): int
    decreases |acts|
  {
    if |acts| == 0 || !Allowed(s, acts[0]) then 0
    else Grant(s, acts[0]) + Grants(Apply(s, acts[0]), acts[1..])
  }

  /** From a state satisfying the invariant (the empty editor, say), every
      replayable session ends in one that satisfies it too, and whose points
      granted moved by exactly what the plus and minus clicks granted. */
  lemma {:induction false} RunKeeps(s: State, acts: seq<Action>)
    requires Invariant(s)
    ensures Run(s, acts).Some? ==> Invariant(Run(s, acts).value)
    ensures Run(s, acts).Some? ==> Granted(Run(s, acts).value) == Granted(s) + Grants(s, acts)
    decreases |acts|
  {
    if |acts| > 0 && Allowed(s, acts[0]) {
      ApplyKeeps(s, acts[0]);
      RunKeeps(Apply(s, acts[0]), acts[1..]);
    }
  }

  /** From the empty editor, after any replayable session the balance the
      header shows is what the buttons granted minus what the unlocked nodes
      commit. */
  lemma SessionBalance(acts: seq<Action>)
    ensures var t := Run(State([], [], 0, 0, None), acts);
      t.Some? ==> Balance(t.value) == Grants(State([], [], 0, 0, None), acts) - UnlockedCost(t.value.nodes)
  {
    InitialInvariant();
    RunKeeps(State([], [], 0, 0, None), acts);
  }

  /** The empty editor the store starts with satisfies the invariant. */
  lemma InitialInvariant()
    ensures Invariant(State([], [], 0, 0, None))
    ensures Granted(State([], [], 0, 0, None)) == 0
  {
    var edges: seq<Edge> := [];
    forall a ensures !Reaches(edges, a, a) {
      forall p | |p| >= 2 ensures !IsWalk(edges, p) {
        assert !HasEdge(edges, p[0], p[1]);
      }
    }
  }
}
