/** The node dialog used both to add and to edit a node: its initial fields,
    the Create button's enabled state, and what a submission hands on. */
module NodeDialog {
  import opened SkillTree
  import opened Text

  /** The dialog's three inputs. The cost input holds a number; it is an
      integer here. */
  datatype Fields = Fields(title: string, description: string, cost: int)

  /** The fields the dialog opens with: the edited node's values, or blank
      with cost 0 when a node is being added. */
  function InitialFields(data: Option<NodeData>): (f: Fields)
    ensures data.None? ==> f.title == [] && f.description == [] && f.cost == 0
    ensures data.Some? ==> f.title == data.value.title && f.cost == data.value.cost
    ensures data.Some? && data.value.description.Some? ==> f.description == data.value.description.value
    ensures data.Some? && data.value.description.None? ==> f.description == []
  {
    match data
    case None => Fields("", "", 0)
    case Some(d) => Fields(d.title, if d.description.Some? then d.description.value else "", d.cost)
  }

  /** The Create button is disabled while the trimmed title is empty or the
      cost is zero. */
  predicate CreateDisabled(f: Fields)
    ensures CreateDisabled(f) <==> AllSpace(f.title) || f.cost == 0
  {
    TrimEmpty(f.title);
    Trim(f.title) == [] || f.cost == 0
  }

  /** The form's submit handler: nothing is submitted for a blank title or a
      zero cost; otherwise the trimmed title, the cost, and the trimmed
      description, which becomes absent when it is blank. */
  function Submit(f: Fields): (r: Option<Submission>)
    ensures r.None? <==> AllSpace(f.title) || f.cost == 0
    ensures r.None? <==> CreateDisabled(f)
    ensures r.Some? ==> r.value.title == Trim(f.title) && r.value.cost == f.cost
    ensures r.Some? ==> r.value.title != [] && Trim(r.value.title) == r.value.title
    ensures r.Some? ==> (r.value.description.None? <==> AllSpace(f.description))
    ensures r.Some? && r.value.description.Some? ==>
      r.value.description.value == Trim(f.description) && Trim(r.value.description.value) == r.value.description.value
  {
    TrimEmpty(f.title);
    TrimEmpty(f.description);
    TrimIdempotent(f.title);
    TrimIdempotent(f.description);
    var title := Trim(f.title);
    if title == [] || f.cost == 0 then None
    else
      var description := Trim(f.description);
      Some(Submission(title, f.cost, if description == [] then None else Some(description)))
  }

  /** Reopening the dialog on a node holding a submission's values and
      submitting it unchanged hands on the same submission. */
  lemma {:induction false} ResubmitUnchanged(f: Fields, unlocked: Option<bool>)
    requires Submit(f).Some?
    ensures var sub := Submit(f).value;
      Submit(InitialFields(Some(NodeData(sub.title, sub.cost, sub.description, unlocked)))) == Submit(f)
  {
    var sub := Submit(f).value;
    var g := InitialFields(Some(NodeData(sub.title, sub.cost, sub.description, unlocked)));
    if sub.description.None? {
      assert Trim(g.description) == [];
    } else {
      TrimEmpty(g.description);
    }
  }
}
