# Skill-tree editor, modelled in Dafny

This project models the graph engine of the skill-tree editor. Users create
skills (nodes) with a cost and join them with prerequisite edges. A node is
unlocked by spending points, and the dependency rules constrain when that may
happen. The model covers:

- the store's actions: `addNode`, `onConnect`, `editNode`, `setEdges` and the
  two counter increments;
- the layout wrapper around Dagre;
- the connection validator and its depth-first `hasCycle`;
- the `onNodesDelete` callback, which refunds points and reconnects the graph;
- the search highlight, with its breadth-first closure;
- the guards in the node component, the header and the node dialog.

Every store action is a pure function over an immutable `State`, which holds
the nodes, the edges, the two point counters and the diagnostic text. The
search and the breadth-first traversal are loop methods.

Modules, one file each:

- `SkillTree`: the entities, the lookups, and the React Flow helpers:
  `getIncomers` and `getOutgoers` filtered as the test mocks do, and
  `getConnectedEdges` and `getNodeConnections` as the library returns them.
- `Walks`: walks, reachability and acyclicity.
- `Text`: JavaScript `trim`, an ASCII `toLowerCase`, and `includes`.
- `Layout`: the layout wrapper.
- `Validator`: the connection validator.
- `Store`: the store's actions.
- `Deletion`: the delete callback.
- `Search`: the search highlight.
- `SkillNode`: the node component.
- `Header`: the header.
- `NodeDialog`: the node dialog.
- `Invariants`: what each action preserves.
- `Session`: a replay of user actions. It shows that the whole invariant holds
  after any replay of the modelled actions, with dialog edits through the
  corrected `editNode`. Drags and the library's own edge removals are not
  among those actions.

The main results:

- An edge the validator accepts keeps the graph acyclic.
- The depth-first search returns true exactly when the source can be reached
  from the target.
- Deletion keeps the graph acyclic and leaves no dangling edge. Two surviving
  nodes are joined by a walk afterwards exactly when they were before.
- The breadth-first search collects exactly the least edge-closed set that
  contains the matches.
- Unlocked nodes always have unlocked prerequisites.
- The usable balance equals the points granted minus the costs of the unlocked
  nodes. This holds for every action except the `editNode` as written (see
  Findings).

## Model

| member | source | states |
|---|---|---|
| SkillTree.Spread | src/store.ts:130-136 | an omitted key keeps the stored value; a key present as `undefined` erases it; a given value replaces it |
| SkillTree.Find | src/store.ts:158 | a node is found exactly when some node has the id, and the found node carries that id |
| SkillTree.FindFirst | src/store.ts:158 | the node found is the first in list order with the id |
| SkillTree.Outgoers | src/setup-tests.ts:41-45 | a node is an outgoer exactly when an edge leaves the id and its target looks that node up; edges to missing targets are skipped |
| SkillTree.Incomers | src/setup-tests.ts:35-39 | a node is an incomer exactly when an edge enters the id and its source looks that node up |
| SkillTree.Touching | src/App.tsx:68 | exactly the edges with the id as source or target |
| SkillTree.EdgesInto | src/components/skill-tree-node.tsx:59 | exactly the edges whose target is the id |
| SkillTree.EdgesOutOf | src/components/skill-tree-node.tsx:65 | exactly the edges whose source is the id |
| SkillTree.WithoutId | src/App.tsx:82 | exactly the nodes with another id remain, and the id set loses just that id |
| Text.Trim | src/App.tsx:95 | the result is a slice of the input with only whitespace cut off either end, and it starts and ends with non-whitespace unless it is empty |
| Text.TrimEmpty | src/App.tsx:95-96 | the trimmed query is empty exactly when the input is all whitespace |
| Text.TrimIdempotent | src/components/header.tsx:44-46 | trimming a dialog value again changes nothing |
| Text.Lower | src/App.tsx:105 | same length, each character lower-cased |
| Text.Contains | src/App.tsx:106 | true exactly when the needle occurs at some position of the haystack |
| Layout.Place | src/store.ts:44-50 | only the position changes, and position plus half the measured size (0 when unmeasured) is the layout's centre |
| Layout.LayoutElements | src/store.ts:27-54 | edges pass through unchanged; one node per input node, in order, differing only in position; the anchor shift; ids and their distinctness are kept |
| Layout.LayoutKeepsUnlockedCost | src/store.ts:42-53 | the layout leaves the committed points unchanged |
| Layout.LayoutKeepsUnlockedIds | src/store.ts:42-53 | the layout changes no node's unlocked status |
| Validator.Live | src/store.ts:164 | the search follows exactly the edges whose target node exists |
| Validator.Dfs | src/store.ts:159-170 | the visited set only grows; true means a walk leads from the node to the source; false means the node was visited and every node entered has all followable successors visited and none is the source |
| Validator.DfsList | src/store.ts:164-169 | true means some outgoer is the source or reaches it; false means no outgoer is the source and all were visited |
| Validator.NotFoundWalk | src/store.ts:159-170 | after a search that ends false, every walk from the start stays inside the visited set and never meets the source |
| Validator.HasCycle | src/store.ts:159-170 | true exactly when the source can be reached from the target |
| Validator.IsValidConnection | src/store.ts:156-189 | only the diagnostic text changes; a missing target or a self-loop is rejected silently; an unlocked target is rejected with the unlocked message; otherwise a reachable source is rejected with the cycle message, and anything else is accepted with the text cleared |
| Validator.AcceptedConnection | src/store.ts:172-188 | accepted exactly when the target exists, differs from the source, is not unlocked, and cannot reach the source |
| Validator.AcceptedEdgeKeepsAcyclic | src/store.ts:156-189 | adding an accepted edge to an acyclic graph keeps it acyclic |
| Store.Merge | src/store.ts:130-136 | each field of the merged data comes from the patch when the patch carries that key, else from the stored data |
| Store.UpdateNodes | src/store.ts:120-140 | nodes with another id are unchanged; nodes with the id get the merged data; ids are kept |
| Store.EditNode | src/store.ts:118-145 | edits as written: only nodes and spent change; an unknown id changes nothing; for a unique id, spent moves by -cost or +cost when the flags differ by strict inequality, by new minus old cost for a still-unlocked node given a non-zero cost, else not at all |
| Store.AsWrittenDelta | src/store.ts:123-129 | the as-written change of spent for one node: an edit without a flag refunds an unlocked node's cost and charges one stored as `false`; for a flag flip without a cost it equals the change in committed points |
| Store.EditNodeCommitted | src/store.ts:118-145 | the corrected edit: spent moves by exactly the change in committed points, so spent minus the unlocked costs is kept |
| Store.UpdateNodesCostUnique | src/store.ts:120-140 | with unique ids, the committed points move by the one edited node's change |
| Store.FindUpdated | src/store.ts:120-140 | after the edit, a lookup finds the node found before, patched when it carries the edited id |
| Store.AddNode | src/store.ts:98-112 | one node appended with the fresh id, kind "skillTree", the given fields and no flag; earlier nodes change only in position; edges and counters are unchanged |
| Store.AddEdge | src/store.ts:92 | appends the edge "source->target" unless an edge between the same endpoints exists |
| Store.OnConnect | src/store.ts:90-97 | the edges become the added-to list; nodes change only in position; counters and text are unchanged |
| Store.SetEdges | src/store.ts:113-117 | only the edge list changes |
| Store.IncAvailable | src/store.ts:146-150 | only the available counter changes, by the argument |
| Store.IncSpent | src/store.ts:151-155 | only the spent counter changes, by the argument |
| Store.ConnectKeepsGraph | src/store.ts:90-97 | connecting what the validator accepts keeps the graph acyclic and every edge between existing nodes |
| Deletion.Row | src/App.tsx:75-79 | one bridge per outgoer, from the given incomer |
| Deletion.CrossEdges | src/App.tsx:74-80 | one "s->t" edge per (incomer, outgoer) pair, without deduplication |
| Deletion.Step | src/App.tsx:65-84 | one round of the fold: the node leaves the working list; the edges are the old ones not touching it plus the bridges |
| Deletion.Reconnect | src/App.tsx:65-85 | the whole fold: the working list loses exactly the deleted ids (what the fold does to the edges is stated by Deletion.ReconnectKeepsGraph) |
| Deletion.StepEdgesAreWalks | src/App.tsx:65-84 | every edge after a round is an old edge or the shortcut of two old edges through the removed node |
| Deletion.StepKeepsGraph | src/App.tsx:65-84 | one round keeps edges between working nodes and keeps acyclicity; reachability among the other nodes is unchanged |
| Deletion.ReconnectKeepsGraph | src/App.tsx:64-86 | after the whole fold: the deleted ids are gone; no edge dangles; the graph stays acyclic; reachability between survivors is unchanged |
| Deletion.ReconnectDetaches | src/App.tsx:66-82 | on an acyclic graph whose edges join existing nodes, no edge left by the fold has a deleted node as an endpoint |
| Deletion.OnNodesDelete | src/App.tsx:53-89 | `incSkillPointsAvailable` credits available with the deleted nodes' unlocked costs, then `setEdges` installs the fold's edges; nothing else changes |
| Deletion.Doomed | src/App.tsx:53-55 | the deleted batch is exactly the nodes with a doomed id |
| Deletion.Survivors | src/store.ts:80-84 | the node list after React Flow's removal is exactly the nodes without a doomed id, and its ids are the old ones minus the doomed |
| Deletion.SplitUnlockedCost | src/App.tsx:56-63 | the committed points split between the survivors and the deleted batch |
| Deletion.SurvivorsUnique | src/App.tsx:82 | removing nodes keeps the remaining ids distinct |
| Deletion.DeleteNodes | src/App.tsx:53-89 | the remaining nodes are exactly those without a doomed id; available grows by the unlocked costs of the deleted ones; spent and the diagnostic stay |
| Deletion.SelfLoopStep | src/App.tsx:65-84 | the round for the only node of a self-loop drops the loop and emits the bridge from the node to itself |
| Deletion.SelfLoopBridge | src/App.tsx:53-89 | deleting the only node of a self-loop leaves the edge k->k with no node k, so when every node of a cycle is deleted, the fold bridges the last of them to itself and leaves that edge dangling |
| Deletion.DeleteKeepsGraph | src/App.tsx:64-86 | deletion keeps the graph acyclic, leaves no edge dangling, and keeps every dependency chain between survivors |
| Search.Visit | src/App.tsx:116-126 | visiting one id collects and enqueues each new neighbour once; the queue stays duplicate-free; every collected id stays connected to a seed; the visited id's edges become settled |
| Search.Matches | src/App.tsx:104-105 | a node matches exactly when the query occurs at some position of its lower-cased label |
| Search.MatchIds | src/App.tsx:102-109 | the matching ids are ids of the nodes; every matching node's id is in it; with distinct ids, exactly the matching nodes' ids |
| Search.Collect | src/App.tsx:111-127 | the collected set holds the seeds, is closed under edges in either direction, and is exactly the ids connected to a seed |
| Search.EdgeJoinsClosure | src/App.tsx:116-126 | both ends of an edge touching a seed are connected to the seeds, whichever way it points |
| Search.Highlight | src/App.tsx:94-157 | a blank query returns the graph unchanged; otherwise each node gets exactly one suffix (matched, else faded when not connected to a match, else dimmed) and each edge is animated exactly when its source is connected to a match |
| SkillNode.FlagOf | src/components/skill-tree-node.tsx:45-46 | the looked-up flag is truthy exactly when the id names an unlocked node |
| SkillNode.AreSomeConnectionsUnlocked | src/components/skill-tree-node.tsx:35-49 | true exactly when some connection's chosen endpoint is locked or missing (with checkForLocked), or unlocked (without); false for no connections |
| SkillNode.ToggleDisabled | src/components/skill-tree-node.tsx:58-144 | enabled exactly when every prerequisite is unlocked, no dependant is unlocked, and the node is unlocked or its cost fits in available minus spent |
| SkillNode.Toggle | src/components/skill-tree-node.tsx:135-145 | a disabled toggle changes nothing; otherwise only the node's flag flips, spent moves by its cost, and an unlock never overdraws |
| SkillNode.TogglePatch | src/components/skill-tree-node.tsx:136-138 | `{unlocked: !data.unlocked}` merged over the data flips the flag and nothing else; the node then commits its cost exactly when it was locked |
| SkillNode.ToggleAgrees | src/store.ts:123-126 | for the toggle's patch the as-written edit and the corrected edit give the same state |
| SkillNode.EditPatch | src/components/skill-tree-node.tsx:80-91 | title and description trimmed, the cost passed on, a missing description sent as `undefined`, and no flag |
| SkillNode.EditSubmit | src/components/skill-tree-node.tsx:80-93 | a node with the edited id takes the submitted values and keeps its flag |
| Header.Balance | src/components/header.tsx:68-70 | the shown number is non-negative exactly when spent does not exceed available |
| Header.DecDisabled | src/components/header.tsx:53-54 | the minus button is enabled exactly when at least one point is available and at least one is unspent |
| Header.Plus | src/components/header.tsx:80 | available and the shown balance go up by one; nothing else changes |
| Header.Minus | src/components/header.tsx:53-76 | a disabled decrement changes nothing; an enabled one lowers available by one and never takes available or the balance below zero |
| Header.TrimDescription | src/components/header.tsx:46 | an absent description stays absent; a present one is trimmed |
| Header.AddSubmit | src/components/header.tsx:42-51 | the trimmed title, the cost and the trimmed description become a new node without a flag; counters and edges are unchanged |
| NodeDialog.InitialFields | src/components/edit-node-modal.tsx:18-22 | the node's title, description and cost, or "", "" and 0 when there is no node |
| NodeDialog.Submit | src/components/edit-node-modal.tsx:55-65 | nothing is submitted exactly when the title is blank or the cost is 0, which is exactly when Create is disabled; otherwise a non-empty trimmed title, the cost, and a trimmed description that is absent exactly when blank |
| NodeDialog.CreateDisabled | src/components/edit-node-modal.tsx:112 | Create is disabled exactly when the title is all whitespace or the cost is 0 |
| NodeDialog.ResubmitUnchanged | src/components/edit-node-modal.tsx:18-65 | reopening the dialog on a submitted node and submitting unchanged gives the same submission |
| Invariants.AddNodeKeepsGranted | src/store.ts:98-112 | adding a node keeps available minus spent plus unlocked costs |
| Invariants.ConnectKeepsGranted | src/store.ts:90-97 | connecting keeps the points granted |
| Invariants.ToggleKeepsGranted | src/components/skill-tree-node.tsx:135-139 | a toggle keeps the points granted |
| Invariants.DeleteKeepsGranted | src/App.tsx:56-63 | the refund keeps the points granted |
| Invariants.EditCommittedKeepsGranted | src/store.ts:118-145 | the corrected edit keeps the points granted for any patch |
| Invariants.DialogEditBreaksGranted | src/store.ts:123-126 | the as-written dialog edit of an unlocked node costing 3 resets spent to 0 while the node stays unlocked, so the points granted jump from 3 to 6 |
| Invariants.PrerequisitesAlongWalk | src/components/skill-tree-node.tsx:58-68 | when the prerequisite order holds, every node on a walk into an unlocked node is unlocked |
| Invariants.UnlockedAfterToggle | src/components/skill-tree-node.tsx:135-139 | after a toggle only the toggled id's unlocked status differs, and it is negated |
| Invariants.ToggleKeepsPrerequisites | src/components/skill-tree-node.tsx:140-145 | the toggle guard keeps every unlocked node's prerequisites unlocked |
| Invariants.EditKeepsPrerequisites | src/components/skill-tree-node.tsx:87-91 | a dialog edit, as written or corrected, changes no flag and keeps the order |
| Invariants.ConnectKeepsPrerequisites | src/store.ts:175-179 | an accepted connection points at a locked node and keeps the order |
| Invariants.AddNodeKeepsPrerequisites | src/store.ts:98-104 | the new flagless node keeps the order |
| Invariants.DeleteKeepsPrerequisites | src/App.tsx:64-86 | every reconnection edge stands for an old walk, so the order carries over |
| Session.Apply | src/store.ts:73-189 | one user action on the store: only toggles and dialog edits move spent, only the header buttons and deletions move available, only connections and deletions change the edges, only additions and deletions change the node ids |
| Session.Connect | src/App.tsx:170-172 | a rejected connection leaves nodes and edges alone; an accepted one adds the edge, clears the diagnostic and moves nodes only; the counters never change and the diagnostic is the validator's |
| Session.ApplyKeeps | src/store.ts:73-189 | every allowed action keeps unique ids, no dangling edge, acyclicity and the prerequisite order; with the corrected `editNode` (Store.EditNodeCommitted) for dialog edits, the points granted move only by the plus and minus buttons |
| Session.RunKeeps | src/store.ts:73-189 | every replayable session from a state with the invariant ends in one with it, whose points granted moved by exactly the sum of the plus and minus clicks' grants, with the corrected `editNode` (Store.EditNodeCommitted) for dialog edits |
| Session.SessionBalance | src/components/header.tsx:53-80 | from the empty editor, after any replayable session the shown balance is the points the buttons granted minus the unlocked nodes' costs, with the corrected `editNode` (Store.EditNodeCommitted) for dialog edits |
| Session.InitialInvariant | src/store.ts:76-79 | the empty store satisfies the invariant, with nothing granted |

## Left out

- Dagre's layered layout is a foreign library. It is a parameter: the centre point of each node id. Only the anchor shift and the pass-through are modelled.
- `nanoid` id generation is a precondition that the new id is fresh.
- React Flow's `addEdge` is library code. It is taken to append an edge from the source to the target unless an edge between the same two nodes is already present. This is an assumption: the library also compares handles. The new edge's id "source->target" is the model's choice (the library names it `xy-edge__` followed by the endpoints); no property depends on it.
- `getOutgoers` and `getIncomers` are library code. They are taken to filter the edges by endpoint and look up the other end among the given nodes, skipping missing ones, as the test mocks in src/setup-tests.ts:35-45 do. `getConnectedEdges([node], edges)` and `getNodeConnections({nodeId})` are taken to return the edges with the id as an endpoint, in edge order, as the library does. The test mocks return no connections for both (src/setup-tests.ts:48 and 72), so the App test's search expectation that n2 gets " opacity-30" although the edge n1->n2 joins it to the match n1 rests on the mock: with the library's behaviour n2 is connected to the match (Search.EdgeJoinsClosure) and gets " opacity-85".
- `onNodesChange` and `onEdgesChange` apply React Flow change objects (drags, selections, removals). That is library code, so they are not modelled. A deletion is modelled as the callback plus the removal of the doomed nodes. The library's own removal of the edges that touch them is not modelled. On an acyclic graph whose edges join existing nodes the callback's `setEdges` already leaves none (Deletion.ReconnectDetaches); on a graph with a cycle all of whose nodes are deleted it does leave one: the fold bridges the last of them to itself (Deletion.SelfLoopBridge). A cycle that keeps a surviving node leaves only a self-loop on a survivor, which does not dangle.
- The batch handed to `onNodesDelete` is taken to be the store's nodes with a doomed id, in store order.
- Persistence to local storage, and store subscription, are I/O.
- Rendering, the dropdown, the portal, the Escape key, the toast, and the header's search form are presentation. The search form only logs, and App passes a `setQuery` the header never calls. The search is modelled as the `useMemo` over a given query.
- Floating-point `number` semantics (NaN from the cost input, non-integer costs) are not modelled. Costs and points are integers.
- Deletion.OnNodesDelete: the `typeof cost === "number"` test always holds, because costs are integers.
- Session.Apply: a dialog edit goes through the corrected `editNode` (Store.EditNodeCommitted), so the session lemmas hold for the program with that correction. With the `editNode` as written the ledger breaks on the first dialog edit of an unlocked node (Invariants.DialogEditBreaksGranted); the prerequisite order holds for both (Invariants.EditKeepsPrerequisites).
- Deletion.ReconnectDetaches: requires an acyclic graph. A cycle all of whose nodes are deleted makes the fold bridge the last of them to itself, leaving an edge whose endpoints are gone, as with the self-loop of the App test's deletion fixture (src/__tests__/App.test.tsx:112). The validator never creates such a cycle, so every state a session reaches is acyclic (Session.RunKeeps).
- Text.Lower: lower-cases ASCII letters only. `toLowerCase` also maps the rest of Unicode.
- The node class names of the search highlight are strings. Styling is not interpreted.

## Findings

| source | as written | input that shows it | evidently intended | confidence | as-written member | corrected member |
|---|---|---|---|---|---|---|
| src/store.ts:123-126 | `nodeData.unlocked !== data.unlocked` treats a patch without `unlocked` as a change of flag, so the dialog edit (src/components/skill-tree-node.tsx:87-91) moves spent by -cost for an unlocked node and +cost for one stored as `false`, though the flag stays | one unlocked node of cost 3, available 3, spent 3; edit it from the dialog with the same values: spent becomes 0 and the node is still unlocked, so the usable balance jumps from 0 to 3 | spent moves only when the flag actually changes, and by the cost difference while the node stays unlocked, so that the usable balance stays the points granted minus the unlocked costs | not executed | Store.EditNode (shown by Invariants.DialogEditBreaksGranted) | Store.EditNodeCommitted (Invariants.EditCommittedKeepsGranted; used by Session.Apply) |

Observations on the code that the model follows:

- A new node carries no `unlocked` key at all (src/store.ts:98-104), so its
  flag reads as undefined, not `false`.
- A deletion refunds the unlocked costs to `available` (src/App.tsx:56-63)
  and leaves `spent` as it was. So `spent` no longer equals the unlocked
  costs after a deletion. The ledger every action keeps is instead
  `available - spent + unlocked costs`: the points granted so far.
- The dialogs accept any non-zero cost, negative ones included
  (src/components/edit-node-modal.tsx:58-59 and 112); costs are `int`.
  Unlocking a node with a negative cost raises the balance.
- The cycle search answers false on a node it has already visited
  (src/store.ts:159-160), without looking further; a cycle is reported
  only when an outgoer is the connection's source.
