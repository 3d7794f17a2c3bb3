# Mind-map editing engine, modelled in Dafny

This project models the editing engine of a mind-map editor. The engine has
two parts:

- the document store (`src/store/useMindMapStore.js`), a zustand store whose
  actions edit the node and edge lists, keep the undo history, save and load
  maps, split a subtree off into a submap, and move along the breadcrumb
  trail of maps;
- the views the canvas derives from `(nodes, edges)` on every render
  (`src/components/MindMapCanvas.jsx`, lines 148-278): the parent and children
  tables, the root, branch colours, the hidden set under collapsed nodes, the
  hidden flags on edges, and the two collapse-all flags.

The modules follow that structure:

| file | module | what it holds |
|---|---|---|
| `types.dfy` | `Types` | nodes, edges, `Option`, `FindNode` |
| `lists.dfy` | `Lists` | the order-keeping `filter` and its subsequence relation |
| `hierarchy.dfy` | `Hierarchy` | `parentMap`, `childrenMap`, the descendant relation, acyclicity, and the recursive `collect` walk both source files use |
| `canvas.dfy` | `Canvas` | the derived views, each loop of the source as a method proved against a recursive or set-valued specification |
| `canvas_order.dfy` | `CanvasOrder` | the order in which the branch heads, and so the branch colours, are handed out |
| `history.dfy` | `History` | the undo/redo timeline (`pushHistory`, `undo`, `redo`) as functions, with their round trips |
| `persistence.dfy` | `Persistence` | how `saveMap` splits a document into a map record and content rows, how `loadMap` merges them back, and the save/load round trip |
| `submap.dfy` | `Submap` | the document surgery of `convertToSubmap`: the new document, the new record, and what the parent document keeps |
| `edits.dfy` | `Edits` | the per-node rewrites of `addChildNode`, `updateNodeData` and `setDescendantsCollapsed`, and what collapsing does to the canvas's hidden set |
| `store.dfy` | `Store` | class `MindMapStore`: one method per store action |

The store is a class with one field, `state`, that holds a `StoreState`
record. zustand keeps its state as one object. Each `set({...})` replaces that
object with a copy in which the named fields have changed, and
`state := state.(...)` does the same. Each store method pins down its whole
new state as a function of the old state and its arguments: either directly
as `state == ...`, or through `Rescheduled(before, state)`, which fixes the
state exactly once `before` is given. It also keeps `Valid()`: the
undo stacks hold at most 50 entries, and at most one autosave timer is armed,
namely the one whose handle is stored.

The source walks the edge list recursively and keeps no visited set, so it
only terminates when the edges have no cycle. Every walk here therefore takes
a ghost depth assignment with `Layered(edges, depth)`: each edge goes strictly
deeper. Every edge counts as a parent-to-child link, including one drawn by
hand with `onConnect`, because the code gives edges no kind.

The backend (Supabase) is replaced by parameters that carry its answers:
`SaveReply`, `LoadReply`, `MapWrite`, and a `contentOk` flag.
`uuidv4()` becomes a fresh-id parameter. The two timers become explicit
events: `FireAutosave` is the autosave timer going off, and `RevertSaveStatus`
is the timer that resets the status.

Behaviour of the code worth noting, which the model follows:

- `deleteNode` has no guard for the root, deletes only the node with its
  edges (children stay, with no parent edge), and pushes a history entry even
  when no node has the id.
- `convertToSubmap` has no guard for the root. It changes the parent document
  once the insert and the content upsert succeed, and it reports success
  whatever the final save of the parent answers. It pushes no history entry.
- `navigateBack` does not flush pending edits before switching maps.
- `addChildNode` ignores the kind of the new node and places every child the
  same way.

## Model

| member | source | states |
|---|---|---|
| Types.FindNode | src/store/useMindMapStore.js:522-523 | `nodes.find`: None exactly when no node has the id; otherwise the first node with it |
| Lists.Filter | src/store/useMindMapStore.js:159-162 | `filter` keeps exactly the elements that pass, each as many times as it occurs in the input, in their original order (a subsequence) |
| Hierarchy.ChildrenOf | src/components/MindMapCanvas.jsx:184-191 | a node's children are exactly the targets of its edges; the list is empty exactly when it has no outgoing edge |
| Hierarchy.ParentOf | src/components/MindMapCanvas.jsx:149-153 | `parentMap[x]` is the source of the last edge into `x`, or None when no edge ends at `x` |
| Hierarchy.ParentIsLinked | src/components/MindMapCanvas.jsx:149-153 | a recorded parent is joined to the node by an edge |
| Hierarchy.ChildrenInEdgeOrder | src/components/MindMapCanvas.jsx:184-191 | the children are listed in the order of their edges |
| Hierarchy.BuildChildrenMap | src/components/MindMapCanvas.jsx:184-191 | the `childrenMap` loop builds a table that agrees with `ChildrenOf` for every node |
| Hierarchy.BuildParentMap | src/components/MindMapCanvas.jsx:149-153 | the `parentMap` loop builds a table that agrees with `ParentOf` for every node |
| Hierarchy.DescendantByChildren | src/components/MindMapCanvas.jsx:196-201 | the strict descendants of a node are its children and their strict descendants (the recursion `collect` follows) |
| Hierarchy.NotOwnDescendant | src/store/useMindMapStore.js:136-141 | on an acyclic edge list no node is its own strict descendant |
| Hierarchy.ChildrenLookup | src/store/useMindMapStore.js:135-138 | `childrenMap[id] \|\| []` is the children list, and `childrenMap[id]?.length` is truthy exactly when the node has children |
| Hierarchy.CollectDescendants | src/store/useMindMapStore.js:133-142 | the recursive `collect` adds exactly the strict descendants, or with `onlyParents` exactly those that have children |
| Canvas.RootId | src/components/MindMapCanvas.jsx:155-158 | the root is the first node at level 0, or None when no node has level 0 |
| Canvas.BranchHeads | src/components/MindMapCanvas.jsx:161-172 | the branch heads are exactly the nodes present whose `parentMap` parent is the root, one entry at most per node |
| CanvasOrder.BranchHeadsInNodeOrder | src/components/MindMapCanvas.jsx:161-172 | the branch heads are listed in node order, so palette colours go out in node order |
| Canvas.ColorTableMeaning | src/components/MindMapCanvas.jsx:161-172 | exactly the branch heads get a colour, and the `k`-th head gets `L1_PALETTE[k % 10]` |
| Canvas.BuildL1ColorMap | src/components/MindMapCanvas.jsx:161-172 | the `l1ColorMap` loop with its running index: keys are exactly the branch heads among the nodes; empty without a root |
| Canvas.OneBranchHeadPerChain | src/components/MindMapCanvas.jsx:175-181 | a node's parent chain passes through at most one branch head |
| Canvas.HeadNotAboveHead | src/components/MindMapCanvas.jsx:175-181 | no branch head is an ancestor of another |
| Canvas.L1OfIsBranchAncestor | src/components/MindMapCanvas.jsx:175-181 | `getL1Id(x)` is `a` exactly when `a` is a branch head and is `x` or one of its ancestors |
| Canvas.GetL1Id | src/components/MindMapCanvas.jsx:175-181 | the `while` loop of `getL1Id` computes `L1Of` |
| Canvas.HiddenNodeIds | src/components/MindMapCanvas.jsx:194-204 | `hiddenNodeIds` holds exactly the strict descendants of collapsed nodes |
| Canvas.CollapsedNodeStaysVisible | src/components/MindMapCanvas.jsx:194-204 | a collapsed node is hidden only when another collapsed node lies above it |
| Canvas.DisplayEdges | src/components/MindMapCanvas.jsx:275-278 | `displayEdges` keeps every edge, in order |
| Canvas.DisplayEdgesFollowCollapse | src/components/MindMapCanvas.jsx:275-278 | an edge is hidden exactly when its target is hidden, so every edge leaving a collapsed node is hidden |
| Canvas.MarkAncestors | src/components/MindMapCanvas.jsx:216-223 | `markAncestors` adds exactly the `parentMap` ancestors, and its early `break` loses none |
| Canvas.HasCollapsibleDescendants | src/components/MindMapCanvas.jsx:213-228 | a node is in the set exactly when it is a `parentMap` ancestor of some node that has children |
| Canvas.CollapsibleHasParentBelow | src/components/MindMapCanvas.jsx:213-228 | a node in that set really has a strict descendant with children |
| Canvas.LastNode | src/components/MindMapCanvas.jsx:207-211 | `nodeById[id]` is the last node with that id, and is absent exactly when no node has it |
| Canvas.BuildNodeById | src/components/MindMapCanvas.jsx:207-211 | the `nodeById` loop builds a table that agrees with `LastNode` |
| Canvas.CollapsedByIdUnique | src/components/MindMapCanvas.jsx:243 | with unique ids, the `collapsed` flag looked up through `nodeById` is the node's own |
| Canvas.DescendantsAllCollapsed | src/components/MindMapCanvas.jsx:235-249 | the stack search with its `visited` set and labelled break answers whether every strict descendant that has children is collapsed |
| Canvas.AllDescendantsCollapsedSet | src/components/MindMapCanvas.jsx:230-252 | the set holds exactly the nodes in the collapsible set whose strict descendants with children are all collapsed |
| Canvas.BuildTables | src/components/MindMapCanvas.jsx:148-252 | one render's tables, each equal to its specification |
| Canvas.NodesWithColor | src/components/MindMapCanvas.jsx:255-273 | same count and order, each entry showing its own node; `hidden` is the hidden set; `hasChildren`; both collapse flags, with "all collapsed" implying "collapsible"; level 0 gets `ROOT_BORDER`; `hasNotes` exactly when the content is neither empty nor `<p></p>`; `hasOverview` exactly when the overview is not blank after `trim` |
| Canvas.BranchNodeColor | src/components/MindMapCanvas.jsx:257-260 | a node below level 0 gets the colour of the branch head on its parent chain |
| Canvas.BranchHeadColor | src/components/MindMapCanvas.jsx:257-260 | for one node: the branch head on its chain has a colour, and that colour is the node's |
| Canvas.UnbranchedNodeColor | src/components/MindMapCanvas.jsx:257-260 | a node below level 0 with no branch head on its chain gets `L1_PALETTE[0]` |
| Edits.ChildNodes | src/store/useMindMapStore.js:533-536 | the existing children of the parent are exactly the nodes an edge from it reaches |
| Edits.MaxY | src/store/useMindMapStore.js:544-547 | the last entry after sorting by `y` has the largest `y` |
| Edits.NewChildNode | src/store/useMindMapStore.js:527-555 | the new node: level `min(parent level + 1, 3)`; x one parent width plus 70 to the right; y level with the parent when it has no children, otherwise 70 below its lowest child; title "New Node", empty content, not selected |
| Edits.Deselect | src/store/useMindMapStore.js:567 | every existing node with `selected` cleared and nothing else changed |
| Edits.AddChildKeepsUniqueIds | src/store/useMindMapStore.js:549-567 | a child under a fresh id keeps node ids unique |
| Edits.AddChildKeepsLayered | src/store/useMindMapStore.js:557-568 | the new edge keeps the edge list acyclic |
| Edits.ApplyPatch | src/store/useMindMapStore.js:114-120 | the shallow merge: each key the patch carries (title, overview, content, collapsed, kind) takes the patch's value, each key it omits keeps the node's; id, position, selection, level and pointer fields are kept; an empty patch changes nothing |
| Edits.CollapseTargets | src/store/useMindMapStore.js:133-142 | `toUpdate` is the node and its strict descendants, each only when it has children |
| Edits.SetCollapsed | src/store/useMindMapStore.js:145-150 | only the `collapsed` flag of only the target nodes changes, to the requested value |
| Edits.CollapseHidesDescendants | src/store/useMindMapStore.js:126-154 | collapsing under a present node with children hides exactly the old hidden set plus every strict descendant of it on the canvas |
| Edits.ExpandUncoversDescendants | src/store/useMindMapStore.js:126-154 | expanding never hides anything new; a strict descendant stays hidden only through a collapsed node outside the subtree |
| History.KeepLast | src/store/useMindMapStore.js:195 | `slice(-n)` keeps the last `n` entries, or all when there are fewer |
| History.KeepFirst | src/store/useMindMapStore.js:211 | `slice(0, n)` keeps the first `n` entries, or all when there are fewer |
| History.PushRecordsPresent | src/store/useMindMapStore.js:189-196 | `pushHistory` records the document as the newest snapshot, drops the oldest beyond 50, and empties `future` |
| History.UndoStepsBack | src/store/useMindMapStore.js:198-213 | `undo` makes the last snapshot live, removes exactly it from `past`, and puts the old document in front of `future` |
| History.RedoStepsForward | src/store/useMindMapStore.js:215-230 | `redo` makes `future[0]` live, removes exactly it, and records the old document on `past` |
| History.UndoThenRedo | src/store/useMindMapStore.js:198-230 | undo then redo restores the document and `past`, and `future` unless it was full |
| History.RedoThenUndo | src/store/useMindMapStore.js:198-230 | redo then undo restores the document and `future`, and `past` unless it was full |
| Persistence.StripForgetsOnlyContent | src/store/useMindMapStore.js:253-258 | two nodes strip to the same stored node exactly when they differ at most in content |
| Persistence.StructuralPayload | src/store/useMindMapStore.js:253-259 | the map record holds every node, in order, without content, and the edges unchanged |
| Persistence.ContentRows | src/store/useMindMapStore.js:284-296 | one content row for exactly each node that is not a submap pointer |
| Persistence.ContentIndex | src/store/useMindMapStore.js:322-323 | `contentById` has a key exactly for each row's id, holding the last row with that id |
| Persistence.MergeContent | src/store/useMindMapStore.js:325-332 | one loaded node per stored node, in order, with every stored field kept except `content` and `overview`, which come from the last row with the node's id, or are empty when no row has it |
| Persistence.SaveLoadRoundTrip | src/store/useMindMapStore.js:253-332 | saving and loading back restores every non-pointer node exactly; a pointer comes back with empty content and overview |
| Submap.Clamp | src/store/useMindMapStore.js:401 | `Math.min(Math.max(v, lo), hi)`: `lo` below the bounds, `hi` above them, `v` itself inside |
| Submap.Subtree | src/store/useMindMapStore.js:382-387 | `subtreeIds` is the node together with all its strict descendants |
| Submap.BelowIsSubtreeMinusTop | src/store/useMindMapStore.js:443 | on an acyclic edge list, the subtree without the node is exactly its strict descendants |
| Submap.SubmapRecordOf | src/store/useMindMapStore.js:409-426 | the new record: named after the node's title, or "Submap" when it is empty; the stripped relocated subtree as payload; linked to the parent map and node |
| Submap.SubmapContentRows | src/store/useMindMapStore.js:429-436 | one content row, under the new map id, for exactly each subtree node |
| Submap.ChildDocShape | src/store/useMindMapStore.js:389-407 | the new document holds exactly the relocated subtree members; every member except the node has a level from 1 to 3; no member is a pointer |
| Submap.ChildDocCentresTop | src/store/useMindMapStore.js:392-407 | the converted node sits at (350, 250), at level 0, expanded |
| Submap.RelocateKeepsLayout | src/store/useMindMapStore.js:392-398 | every member moves by the same offset, so relative positions are kept |
| Submap.SubtreeEdgesLeaveMembers | src/store/useMindMapStore.js:390 | the new document's edges are exactly the edges leaving its members |
| Submap.ParentDocShape | src/store/useMindMapStore.js:444-451 | the parent keeps exactly the nodes outside the strict descendants (the converted one marked) and never grows |
| Submap.ParentDocMarksPointer | src/store/useMindMapStore.js:444-451 | the converted node stays, as an expanded pointer to the new map; the other kept nodes are unchanged |
| Submap.EdgesPartition | src/store/useMindMapStore.js:390-454 | each edge goes to the parent document or to the new one, never both; only edges entering the subtree from outside go to neither |
| Store.ContentNodesEmpty | src/store/useMindMapStore.js:284-286 | no content node is left exactly when every node is a submap pointer |
| Store.SavedMapId | src/store/useMindMapStore.js:265-281 | an existing map id is kept; otherwise the inserted record's id is adopted when the insert succeeds |
| Store.BackIndex | src/store/useMindMapStore.js:480-488 | the crumb `navigateBack` goes to: the given index or the last one; None when that names no crumb |
| Store.BackStep | src/store/useMindMapStore.js:478-489 | the map to load and the crumbs before it; None when there is no crumb or its map was never saved |
| Store.EnterThenBack | src/store/useMindMapStore.js:468-490 | entering a submap and going back one step returns to the saved map and the trail above it |
| Store.UndoKeepsConsistent | src/store/useMindMapStore.js:198-213 | undo keeps the store invariant |
| Store.RedoKeepsConsistent | src/store/useMindMapStore.js:215-230 | redo keeps the store invariant |
| Store.MindMapStore.constructor | src/store/useMindMapStore.js:8-48 | the initial state: one "Central Topic" root at level 0 at (350, 250), an unsaved "Untitled Map", empty history and trail |
| Store.MindMapStore.ScheduleAutosave | src/store/useMindMapStore.js:234-244 | any armed timer is cleared; a new one is armed under a fresh handle only when the map has an id |
| Store.MindMapStore.FireAutosave | src/store/useMindMapStore.js:239-241 | the timer going off saves under the current name |
| Store.MindMapStore.RevertSaveStatus | src/store/useMindMapStore.js:302 | the status goes back to idle and nothing else changes |
| Store.MindMapStore.PushHistory | src/store/useMindMapStore.js:189-196 | the timeline becomes `History.Push` of the old one; nothing else changes |
| Store.MindMapStore.Undo | src/store/useMindMapStore.js:198-213 | the timeline becomes `History.Undo` of the old one; dirty exactly when something moved or it was dirty before |
| Store.MindMapStore.Redo | src/store/useMindMapStore.js:215-230 | the timeline becomes `History.Redo` of the old one; dirty exactly when something moved or it was dirty before |
| Store.MindMapStore.OnConnect | src/store/useMindMapStore.js:72-87 | history pushed, the edge appended, dirty, autosave rescheduled |
| Store.MindMapStore.UpdateNodeData | src/store/useMindMapStore.js:114-124 | every node with the id is patched and no other changes; no history entry; dirty; autosave rescheduled |
| Store.MindMapStore.SetDescendantsCollapsed | src/store/useMindMapStore.js:126-154 | nothing changes when there is nothing to set; otherwise history pushed, `collapsed` set on exactly the targets, dirty, autosave rescheduled |
| Store.MindMapStore.DeleteNode | src/store/useMindMapStore.js:156-175 | history pushed; the nodes become every node with another id and the edges every edge not touching it, in order and with every copy kept; the selection is cleared only when it was that node; dirty; autosave rescheduled; the content-row delete is asked for only when the map has an id |
| Store.MindMapStore.AddChildNode | src/store/useMindMapStore.js:520-573 | nothing changes without the parent; otherwise history pushed, existing nodes deselected, the new child and its edge appended, dirty, autosave rescheduled |
| Store.MindMapStore.SaveMap | src/store/useMindMapStore.js:248-311 | the payload is the stripped document; rows are written only after a successful map write when some node is not a pointer; success exactly when every write succeeds, and it then clears the dirty flag and adopts the name |
| Store.MindMapStore.LoadMap | src/store/useMindMapStore.js:313-358 | a failed load changes nothing; a successful one installs the merged nodes and the edges, resets history, selection, dirty flag and status, and adopts the trail |
| Store.MindMapStore.Flush | src/store/useMindMapStore.js:368-371 | unsaved edits to a map with an id are saved, with the armed autosave cancelled; otherwise nothing changes |
| Store.MindMapStore.NavigateToSubmap | src/store/useMindMapStore.js:468-476 | after the flush, the current map is pushed onto the trail and the submap is loaded; a failed load leaves the flushed state |
| Store.MindMapStore.NavigateBack | src/store/useMindMapStore.js:478-490 | loads the chosen crumb's map and keeps only the crumbs before it; otherwise nothing changes |
| Store.MindMapStore.ConvertToSubmap | src/store/useMindMapStore.js:362-466 | the record is built from the subtree; only after the insert and the content upsert succeed does the document drop the strict descendants and their edges, mark the node as a pointer and save again; otherwise only the flush has happened |

## Left out

- Supabase, `supabase.auth.getUser`, `localStorage` and `console`: backend answers are parameters. The `user_id` column and the `localStorage` write of the last map id are not modelled.
- The interleaving of the `await`s: every action runs to completion. An edit made while a save is in flight, and the `saving` status as other code would see it, are not modelled.
- Timers: the delays (2000 and 3000 ms) are not modelled. `FireAutosave` and `RevertSaveStatus` are events that can happen whenever their precondition holds.
- Store.MindMapStore.OnConnect: React Flow's `addEdge` is library code. It builds its own edge id and skips a connection that already exists; the model appends the connection as given.
- `onNodesChange` and `onEdgesChange` delegate to React Flow's `applyNodeChanges` and `applyEdgeChanges`, which are library code that is not part of this model.
- `addNode`, `newMap`, `setMapName`, `selectNode`, `deselectNode`, `openMapList`, `closeMapList`, `isMapListOpen` and `fitViewTrigger` are outside the core and are not modelled.
- Display-only fields (`type`, `data.key`, the edge `style` and `animated`) are not modelled.
- Positions are integers; the source's coordinates are JavaScript numbers.
- `uuidv4()` and the generated root id are parameters. `AddChildNode` does not require the id to be fresh, because the source does not check it; `Edits.AddChildKeepsUniqueIds` states what holds when it is fresh.
- Strings are never `undefined` or `null` here. The `|| ''` defaults on content rows and the `?? 0` default level therefore have no effect, and nullable database columns are not modelled.
- Plain-object lookup tables (`{}`) are maps. Ids that collide with `Object.prototype` keys are not modelled.
- Edits.ApplyPatch: a patch covers `title`, `overview`, `content`, `collapsed` and the node kind. Arbitrary other keys the source would merge (such as `level` or `isSubmap`) are not modelled.
- Acyclicity is a ghost precondition (`Layered`) of every walk, since the source's recursive walks do not terminate on a cycle.
- Pinch zoom, drag-and-drop, edge geometry, group layout and the components other than the canvas views are not part of this model.
