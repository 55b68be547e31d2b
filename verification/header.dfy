/** The header: the points display, the plus and minus buttons, and the
    add-node dialog's submit handler. */
module Header {
  import opened SkillTree
  import opened Text
  import opened Layout
  import opened Store

  /** The number the header shows: available minus spent. */
  function Balance(s: State): (b: int)
    ensures b >= 0 <==> s.spent <= s.available
  {
    s.available - s.spent
  }

  /** The minus button is disabled when nothing is available or nothing is
      left to take away. */
  predicate DecDisabled(s: State)
    ensures !DecDisabled(s) <==> s.available >= 1 && Balance(s) >= 1
  {
    s.available <= 0 || s.available - s.spent <= 0
  }

  /** A click on the plus button grants one more point. */
  function Plus(s: State): (r: State)
    ensures Balance(r) == Balance(s) + 1 && r.available == s.available + 1
    ensures r.(available := s.available) == s
  {
    IncAvailable(s, 1)
  }

  /** A click on the minus button: nothing while it is disabled, otherwise
      one point fewer is available. It never takes the shown balance or the
      available points below zero. */
  function Minus(s: State): (r: State)
    ensures DecDisabled(s) ==> r == s
    ensures !DecDisabled(s) ==> Balance(r) == Balance(s) - 1 && r.available == s.available - 1
    ensures r.(available := s.available) == s
    ensures r != s ==> Balance(r) >= 0 && r.available >= 0
    ensures Balance(s) >= 0 ==> Balance(r) >= 0
  {
    if DecDisabled(s) then s else IncAvailable(s, -1)
  }

  /** `description?.trim()`: an absent description stays absent. */
  function TrimDescription(d: Option<string>): (r: Option<string>)
    ensures r.None? <==> d.None?
    ensures r.Some? ==> r.value == Trim(d.value)
  {
    if d.Some? then Some(Trim(d.value)) else None
  }

  /** `handleAddSubmit`: the dialog's values, trimmed again, become a new
      node under the fresh id `id`, laid out with the rest. */
  function AddSubmit(s: State, sub: Submission, id: NodeId, centres: Centres): (r: State)
    requires id !in Ids(s.nodes)
    ensures |r.nodes| == |s.nodes| + 1
    ensures r.nodes[|s.nodes|].id == id
    ensures r.nodes[|s.nodes|].data == NodeData(Trim(sub.title), sub.cost, TrimDescription(sub.description), None)
    ensures r.edges == s.edges && r.available == s.available && r.spent == s.spent
  {
    AddNode(s, id, Trim(sub.title), sub.cost, TrimDescription(sub.description), centres)
  }
}
