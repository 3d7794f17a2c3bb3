/** The document store: one state record holding the live document, its
    undo timeline, the save state of the map it belongs to, the autosave
    timer and the breadcrumb trail of maps above it. As in the zustand store
    it models, every `set({...})` replaces the record by a copy with the
    named fields changed (`state := state.(...)`), and the rest stays as it
    was.

    Backend calls are replaced by reply parameters (what the database
    answered), `uuidv4()` by fresh-id parameters, and timers by explicit
    events: `FireAutosave` is the autosave timer going off and
    `RevertSaveStatus` the status-reset timer. */
module Store {
  import opened Types
  import opened Lists
  import opened Hierarchy
  import opened History
  import opened Persistence
  import opened Submap
  import opened Edits

  datatype SaveStatus = Idle | Saving | Saved | Failed

  /** One entry of the trail of maps above the current one. */
  datatype Crumb = Crumb(mapId: Option<MapId>, mapName: string)

  /** The answer to writing a map record: the record's id (the new one for
      an insert), or an error. */
  datatype MapWrite = Written(id: MapId) | WriteFailed

  /** The answers `saveMap` gets: the map update or insert, then the content
      upsert (only made when some node is not a submap pointer). */
  datatype SaveReply = SaveReply(mapWrite: MapWrite, contentOk: bool)

  /** The answers `loadMap` gets for the requested id: the record's name and
      structural payload with the content rows of the map, or an error. */
  datatype LoadReply = Loaded(name: string, payload: MapPayload, rows: seq<ContentRow>) | LoadFailed

  /** Every node is a submap pointer, so no content row is written. */
  predicate AllPointers(nodes: seq<Node>) {
    forall n :: n in nodes ==> n.attrs.isSubmap
  }

  /** `nodes.filter((n) => !n.data.isSubmap)`: the nodes whose content the
      map itself stores. */
  function ContentNodes(nodes: seq<Node>): seq<Node> {
    Filter(nodes, (n: Node) => !n.attrs.isSubmap)
  }

  /** No content node is left exactly when every node is a pointer. */
  lemma ContentNodesEmpty(nodes: seq<Node>)
    ensures ContentNodes(nodes) == [] <==> AllPointers(nodes)
  {
    if ContentNodes(nodes) != [] {
      assert ContentNodes(nodes)[0] in ContentNodes(nodes);
    }
  }

  /** The nodes `deleteNode(nodeId)` keeps: every node with another id, in order. */
  function NodesWithout(nodes: seq<Node>, nodeId: NodeId): seq<Node> {
    Filter(nodes, (n: Node) => n.id != nodeId)
  }

  /** The edges `deleteNode(nodeId)` keeps: every edge not touching the node, in order. */
  function EdgesWithout(edges: seq<Edge>, nodeId: NodeId): seq<Edge> {
    Filter(edges, (e: Edge) => e.source != nodeId && e.target != nodeId)
  }

  /** The save reaches `saved` exactly when the map write succeeds and the
      content upsert, when made, succeeds. */
  predicate SaveSucceeds(nodes: seq<Node>, reply: SaveReply) {
    reply.mapWrite.Written? && (AllPointers(nodes) || reply.contentOk)
  }

  /** `nameOverride || currentMapName`. */
  function SaveName(nameOverride: string, current: string): string {
    if nameOverride != "" then nameOverride else current
  }

  /** The map id after a save: kept when there was one, otherwise the id of
      the inserted record as soon as the insert succeeds. */
  function SavedMapId(current: Option<MapId>, reply: SaveReply): (r: Option<MapId>)
    ensures current.Some? ==> r == current
    ensures current.None? ==> (r.Some? <==> reply.mapWrite.Written?)
  {
    if current.Some? then current
    else if reply.mapWrite.Written? then Some(reply.mapWrite.id)
    else None
  }

  /** The crumb `navigateBack(targetIndex)` returns to: the given index, or
      the last crumb when none is given; None when the index does not name a
      crumb (the source then fails reading `crumb.mapId`). */
  function BackIndex(count: nat, target: Option<int>): (r: Option<nat>)
    ensures r.Some? ==> r.value < count
    ensures target.None? ==> (r.Some? <==> count > 0) && (count > 0 ==> r == Some(count - 1))
    ensures target.Some? ==> (r.Some? <==> 0 <= target.value < count)
  {
    if target.None? then (if count > 0 then Some(count - 1) else None)
    else if 0 <= target.value < count then Some(target.value as nat)
    else None
  }


  /** The store's state record. `autosaveTimer` is the handle last stored
      by `scheduleAutosave` (clearing the timer does not reset it),
      `autosavePending` whether that timer is still armed, and `nextTimer`
      the next handle the runtime hands out. */
  datatype StoreState = StoreState(
    nodes: seq<Node>,
    edges: seq<Edge>,
    selectedNodeId: Option<NodeId>,
    currentMapId: Option<MapId>,
    currentMapName: string,
    isDirty: bool,
    saveStatus: SaveStatus,
    past: seq<Snapshot>,
    future: seq<Snapshot>,
    autosaveTimer: Option<nat>,
    autosavePending: bool,
    nextTimer: nat,
    breadcrumbs: seq<Crumb>)

  /** The live document with its undo and redo stacks. */
  function TimelineOf(s: StoreState): Timeline {
    Timeline(Snapshot(s.nodes, s.edges), s.past, s.future)
  }

  /** The record with the document and both stacks taken from `t`. */
  function WithTimeline(s: StoreState, t: Timeline): StoreState {
    s.(nodes := t.present.nodes, edges := t.present.edges, past := t.past, future := t.future)
  }

  /** The undo stacks stay within the limit; at most one autosave timer is
      armed, and it is the one whose handle is stored. */
  predicate Consistent(s: StoreState) {
    Bounded(TimelineOf(s))
    && 0 < s.nextTimer && (s.autosaveTimer.Some? ==> 0 < s.autosaveTimer.value < s.nextTimer)
    && (s.autosavePending ==> s.autosaveTimer.Some?)
  }

  /** The record after `pushHistory`. */
  function Pushed(s: StoreState): StoreState {
    s.(past := PushPast(s.past, Snapshot(s.nodes, s.edges)), future := [])
  }

  /** What `scheduleAutosave` leaves: any armed timer cleared, and a new one
      armed, under a fresh handle, only when the map has an id; nothing
      else changes. */
  predicate Rescheduled(before: StoreState, after: StoreState) {
    (before.currentMapId.None? ==> after == before.(autosavePending := false))
    && (before.currentMapId.Some? ==>
          after == before.(autosaveTimer := Some(before.nextTimer), autosavePending := true, nextTimer := before.nextTimer + 1))
  }

  /** The record after `saveMap(nameOverride)` with these answers: the map
      id adopted, and on success the dirty flag cleared and the name
      adopted. */
  function AfterSave(s: StoreState, nameOverride: string, reply: SaveReply): StoreState {
    var ok := SaveSucceeds(s.nodes, reply);
    s.(currentMapId := SavedMapId(s.currentMapId, reply),
       currentMapName := if ok then SaveName(nameOverride, s.currentMapName) else s.currentMapName,
       isDirty := s.isDirty && !ok,
       saveStatus := if ok then Saved else Failed)
  }

  /** The record after the flush that precedes leaving a map: a save, with
      the armed autosave cancelled, when there are unsaved edits to a map
      with an id. */
  function Flushed(s: StoreState, reply: SaveReply): StoreState {
    if s.isDirty && s.currentMapId.Some? then AfterSave(s.(autosavePending := false), "", reply) else s
  }

  /** The record after `loadMap(mapId, trail)` installs a loaded map. */
  function Installed(s: StoreState, mapId: MapId, trail: seq<Crumb>, name: string,
                     payload: MapPayload, rows: seq<ContentRow>): StoreState {
    s.(nodes := MergeContent(payload.nodes, rows), edges := payload.edges,
       currentMapId := Some(mapId), currentMapName := name, isDirty := false,
       past := [], future := [], selectedNodeId := None, saveStatus := Idle,
       breadcrumbs := trail)
  }

  /** What `navigateBack(target)` loads: the crumb's map and the crumbs
      before it; None when the index names no crumb or the crumb's map was
      never saved. */
  function BackStep(trail: seq<Crumb>, target: Option<int>): (r: Option<(MapId, seq<Crumb>)>)
    ensures r.Some? <==> BackIndex(|trail|, target).Some? && trail[BackIndex(|trail|, target).value].mapId.Some?
    ensures r.Some? ==> var k := BackIndex(|trail|, target).value;
                        r.value.1 == trail[..k] && Some(r.value.0) == trail[k].mapId
  {
    var k := BackIndex(|trail|, target);
    if k.None? || trail[k.value].mapId.None? then None
    else Some((trail[k.value].mapId.value, trail[..k.value]))
  }

  /** Going into a submap and then back one step returns to the map that
      was current and to the trail above it, whatever the two loads and the
      flush answered, as long as that map had been saved. */
  lemma {:induction false} EnterThenBack(s: StoreState, submapId: MapId, flush: SaveReply, name: string,
                                         payload: MapPayload, rows: seq<ContentRow>)
    ensures var inside := Installed(Flushed(s, flush), submapId, s.breadcrumbs + [Crumb(s.currentMapId, s.currentMapName)],
                                    name, payload, rows);
            (s.currentMapId.Some? ==> BackStep(inside.breadcrumbs, None) == Some((s.currentMapId.value, s.breadcrumbs)))
            && (s.currentMapId.None? ==> BackStep(inside.breadcrumbs, None) == None)
  {
    var longer := s.breadcrumbs + [Crumb(s.currentMapId, s.currentMapName)];
    assert longer[..|s.breadcrumbs|] == s.breadcrumbs;
  }

  /** Undo leaves the record consistent. */
  lemma UndoKeepsConsistent(s: StoreState)
    requires Consistent(s)
    ensures Consistent(WithTimeline(s, History.Undo(TimelineOf(s))))
  {
    var t := TimelineOf(s);
    if s.past != [] {
      UndoStepsBack(t);
    }
    assert Bounded(TimelineOf(WithTimeline(s, History.Undo(t))));
  }

  /** Redo leaves the record consistent. */
  lemma RedoKeepsConsistent(s: StoreState)
    requires Consistent(s)
    ensures Consistent(WithTimeline(s, History.Redo(TimelineOf(s))))
  {
    var t := TimelineOf(s);
    if s.future != [] {
      RedoStepsForward(t);
    }
    assert Bounded(TimelineOf(WithTimeline(s, History.Redo(t))));
  }

  const InitialTitle: string := "Central Topic"
  const UntitledName: string := "Untitled Map"

  /** The root node of a new document. */
  function InitialRoot(rootId: NodeId): Node {
    Node(rootId, Position(CentreX, CentreY), false, Attrs(InitialTitle, 0, "", false, None, false, None), "")
  }

  class MindMapStore {
    var state: StoreState

    ghost predicate Valid()
      reads this
    {
      Consistent(state)
    }

    /** The initial state: one root node titled "Central Topic" at the
        centre, an untitled unsaved map, empty history and trail, no timer. */
    constructor (rootId: NodeId)
      ensures Valid()
      ensures state.nodes == [InitialRoot(rootId)] && state.edges == [] && state.selectedNodeId == None
      ensures state.currentMapId == None && state.currentMapName == UntitledName && !state.isDirty && state.saveStatus == Idle
      ensures state.past == [] && state.future == [] && state.breadcrumbs == []
      ensures state.autosaveTimer == None && !state.autosavePending
    {
      state := StoreState([InitialRoot(rootId)], [], None, None, UntitledName, false, Idle, [], [], None, false, 1, []);
    }

    // -------------------------------------------------------------------
    // Autosave

    method ScheduleAutosave()
      requires Valid()
      modifies this
      ensures Valid() && Rescheduled(old(state), state)
    {
      var s := state;
      if s.autosaveTimer.Some? {
        s := s.(autosavePending := false);
      }
      if s.currentMapId.None? {
        state := s;
        return;
      }
      state := s.(autosaveTimer := Some(s.nextTimer), autosavePending := true, nextTimer := s.nextTimer + 1);
    }

    /** The armed autosave timer going off: it saves the map under its
        current name. */
    method FireAutosave(reply: SaveReply) returns (ok: bool)
      requires Valid() && state.autosavePending
      modifies this
      ensures Valid() && !state.autosavePending
      ensures ok == SaveSucceeds(old(state).nodes, reply)
      ensures state == AfterSave(old(state).(autosavePending := false), "", reply)
    {
      state := state.(autosavePending := false);
      var payload, rows;
      ok, payload, rows := SaveMap("", reply);
    }

    /** The timer set after a save puts the status back to idle. */
    method RevertSaveStatus()
      modifies this
      ensures state == old(state).(saveStatus := Idle)
    {
      state := state.(saveStatus := Idle);
    }

    // -------------------------------------------------------------------
    // History

    method PushHistory()
      requires Valid()
      modifies this
      ensures Valid() && state == Pushed(old(state))
      ensures TimelineOf(state) == History.Push(TimelineOf(old(state)))
    {
      state := state.(past := PushPast(state.past, Snapshot(state.nodes, state.edges)), future := []);
    }

    method Undo()
      requires Valid()
      modifies this
      ensures Valid()
      ensures state == WithTimeline(old(state), History.Undo(TimelineOf(old(state))))
                         .(isDirty := old(state).isDirty || old(state).past != [])
    {
      var s := state;
      if s.past == [] {
        return;
      }
      UndoKeepsConsistent(s);
      var previous := s.past[|s.past| - 1];
      state := s.(nodes := previous.nodes, edges := previous.edges, past := s.past[..|s.past| - 1],
                  future := KeepFirst([Snapshot(s.nodes, s.edges)] + s.future, HistoryLimit), isDirty := true);
    }

    method Redo()
      requires Valid()
      modifies this
      ensures Valid()
      ensures state == WithTimeline(old(state), History.Redo(TimelineOf(old(state))))
                         .(isDirty := old(state).isDirty || old(state).future != [])
    {
      var s := state;
      if s.future == [] {
        return;
      }
      RedoKeepsConsistent(s);
      var next := s.future[0];
      state := s.(nodes := next.nodes, edges := next.edges, past := PushPast(s.past, Snapshot(s.nodes, s.edges)),
                  future := s.future[1..], isDirty := true);
    }

    // -------------------------------------------------------------------
    // Editing

    /** A connection drawn on the canvas becomes an edge like any other. */
    method OnConnect(connection: Edge)
      requires Valid()
      modifies this
      ensures Valid()
      ensures Rescheduled(Pushed(old(state)).(edges := old(state).edges + [connection], isDirty := true), state)
    {
      PushHistory();
      state := state.(edges := state.edges + [connection], isDirty := true);
      ScheduleAutosave();
    }

    /** Patch the data of every node with this id; the others, and the
        order, stay as they are. No history entry is pushed. */
    method UpdateNodeData(nodeId: NodeId, patch: NodePatch)
      requires Valid()
      modifies this
      ensures Valid()
      ensures |state.nodes| == |old(state).nodes|
      ensures forall i :: 0 <= i < |state.nodes| ==>
                state.nodes[i] == (if old(state).nodes[i].id == nodeId then ApplyPatch(old(state).nodes[i], patch) else old(state).nodes[i])
      ensures Rescheduled(old(state).(nodes := state.nodes, isDirty := true), state)
    {
      var before := state.nodes;
      state := state.(nodes := seq(|before|, i requires 0 <= i < |before| =>
                                 if before[i].id == nodeId then ApplyPatch(before[i], patch) else before[i]),
                      isDirty := true);
      ScheduleAutosave();
    }

    /** Set `collapsed` on the node and on each strict descendant that has
        children; leaves and everything outside the subtree are untouched.
        When there is nothing to set, nothing changes at all. */
    method SetDescendantsCollapsed(nodeId: NodeId, collapse: bool, ghost depth: NodeId -> nat)
      requires Valid() && Layered(state.edges, depth)
      modifies this
      ensures Valid()
      ensures CollapseTargets(old(state).edges, nodeId) == {} ==> state == old(state)
      ensures CollapseTargets(old(state).edges, nodeId) != {} ==>
                Rescheduled(Pushed(old(state)).(nodes := SetCollapsed(old(state).nodes, CollapseTargets(old(state).edges, nodeId), collapse),
                                                isDirty := true), state)
    {
      var cm := BuildChildrenMap(state.edges);
      var toUpdate: set<NodeId> := {};
      if nodeId in cm && |cm[nodeId]| > 0 {
        toUpdate := {nodeId};
      }
      assert (nodeId in cm && |cm[nodeId]| > 0) <==> HasChildren(state.edges, nodeId);
      toUpdate := CollectDescendants(cm, state.edges, depth, nodeId, toUpdate, true);
      assert toUpdate == CollapseTargets(state.edges, nodeId);
      if toUpdate == {} {
        return;
      }
      PushHistory();
      state := state.(nodes := SetCollapsed(state.nodes, toUpdate, collapse), isDirty := true);
      ScheduleAutosave();
    }

    /** Remove every node with this id and every edge touching it, keeping
        the order of the rest; clear the selection only when it was this
        node. When the map has an id, also ask for the node's content row to
        be deleted (`deleteRow`). */
    method DeleteNode(nodeId: NodeId) returns (deleteRow: Option<NodeId>)
      requires Valid()
      modifies this
      ensures Valid()
      ensures state.nodes == NodesWithout(old(state).nodes, nodeId)
      ensures state.edges == EdgesWithout(old(state).edges, nodeId)
      ensures forall n :: n in state.nodes <==> n in old(state).nodes && n.id != nodeId
      ensures forall n: Node :: n.id != nodeId ==> multiset(state.nodes)[n] == multiset(old(state).nodes)[n]
      ensures Subsequence(state.nodes, old(state).nodes)
      ensures forall e :: e in state.edges <==> e in old(state).edges && e.source != nodeId && e.target != nodeId
      ensures Subsequence(state.edges, old(state).edges)
      ensures state.selectedNodeId == (if old(state).selectedNodeId == Some(nodeId) then None else old(state).selectedNodeId)
      ensures Rescheduled(Pushed(old(state)).(nodes := NodesWithout(old(state).nodes, nodeId),
                                              edges := EdgesWithout(old(state).edges, nodeId),
                                              selectedNodeId := state.selectedNodeId, isDirty := true), state)
      ensures deleteRow == (if old(state).currentMapId.Some? then Some(nodeId) else None)
    {
      PushHistory();
      var s := state;
      var selected := if s.selectedNodeId == Some(nodeId) then None else s.selectedNodeId;
      state := s.(nodes := NodesWithout(s.nodes, nodeId), edges := EdgesWithout(s.edges, nodeId),
                  selectedNodeId := selected, isDirty := true);
      deleteRow := if s.currentMapId.Some? then Some(nodeId) else None;
      ScheduleAutosave();
    }

    /** Append a child of `parentId` under the fresh id, linked by a new
        edge, and deselect every existing node; nothing happens when the
        parent is absent. */
    method AddChildNode(parentId: NodeId, freshId: NodeId)
      requires Valid()
      modifies this
      ensures Valid()
      ensures !HasNode(old(state).nodes, parentId) ==> state == old(state)
      ensures HasNode(old(state).nodes, parentId) ==>
                Rescheduled(Pushed(old(state)).(
                  nodes := Deselect(old(state).nodes)
                           + [NewChildNode(old(state).nodes, old(state).edges, FindNode(old(state).nodes, parentId).value, freshId)],
                  edges := old(state).edges + [ChildEdge(parentId, freshId)],
                  isDirty := true), state)
    {
      var found := FindNode(state.nodes, parentId);
      if found.None? {
        return;
      }
      PushHistory();
      var s := state;
      var child := NewChildNode(s.nodes, s.edges, found.value, freshId);
      state := s.(nodes := Deselect(s.nodes) + [child], edges := s.edges + [ChildEdge(parentId, freshId)], isDirty := true);
      ScheduleAutosave();
    }

    // -------------------------------------------------------------------
    // Save and load

    /** Write the map: the structural payload (`payload`) to the map record,
        inserting one and adopting its id when the map has none, then the
        content rows (`rows`, empty when none are written). Success clears
        the dirty flag and adopts the name; failure leaves both. */
    method SaveMap(nameOverride: string, reply: SaveReply) returns (ok: bool, payload: MapPayload, rows: seq<ContentRow>)
      requires Valid()
      modifies this
      ensures Valid() && state == AfterSave(old(state), nameOverride, reply)
      ensures payload == StructuralPayload(state.nodes, state.edges)
      ensures reply.mapWrite.Written? && !AllPointers(state.nodes) ==> rows == ContentRows(state.nodes, state.currentMapId.value)
      ensures !reply.mapWrite.Written? || AllPointers(state.nodes) ==> rows == []
      ensures ok == SaveSucceeds(state.nodes, reply)
      ensures ok ==> !state.isDirty && state.saveStatus == Saved && state.currentMapId.Some?
      ensures !ok ==> state.isDirty == old(state).isDirty && state.saveStatus == Failed
    {
      var s := state;
      var name := SaveName(nameOverride, s.currentMapName);
      payload := StructuralPayload(s.nodes, s.edges);
      rows := [];
      state := s.(saveStatus := Saving);
      if reply.mapWrite.WriteFailed? {
        state := s.(saveStatus := Failed);
        return false, payload, rows;
      }
      var mapId := if s.currentMapId.Some? then s.currentMapId.value else reply.mapWrite.id;
      state := s.(currentMapId := Some(mapId), saveStatus := Saving);
      var contentNodes := ContentNodes(s.nodes);
      ContentNodesEmpty(s.nodes);
      if contentNodes != [] {
        rows := ContentRows(s.nodes, mapId);
        if !reply.contentOk {
          state := s.(currentMapId := Some(mapId), saveStatus := Failed);
          return false, payload, rows;
        }
      }
      state := s.(currentMapId := Some(mapId), isDirty := false, currentMapName := name, saveStatus := Saved);
      ok := true;
    }

    /** Install the map `mapId` as answered by the backend: structure from
        the record, content and overview merged back by node id, history,
        selection and dirty flag reset, the given trail adopted. A failed
        load changes nothing. */
    method LoadMap(mapId: MapId, trail: seq<Crumb>, reply: LoadReply) returns (ok: bool)
      requires Valid()
      modifies this
      ensures Valid()
      ensures ok == reply.Loaded?
      ensures !ok ==> state == old(state)
      ensures ok ==> state == Installed(old(state), mapId, trail, reply.name, reply.payload, reply.rows)
    {
      if reply.LoadFailed? {
        return false;
      }
      state := state.(nodes := MergeContent(reply.payload.nodes, reply.rows), edges := reply.payload.edges,
                      currentMapId := Some(mapId), currentMapName := reply.name, isDirty := false,
                      past := [], future := [], selectedNodeId := None, saveStatus := Idle,
                      breadcrumbs := trail);
      ok := true;
    }

    // -------------------------------------------------------------------
    // Submaps

    /** Save first when there are unsaved edits to a map with an id,
        cancelling the armed autosave. */
    method Flush(reply: SaveReply)
      requires Valid()
      modifies this
      ensures Valid() && state == Flushed(old(state), reply)
    {
      if state.isDirty && state.currentMapId.Some? {
        state := state.(autosavePending := false);
        var ok, payload, rows := SaveMap("", reply);
      }
    }

    /** Open a submap one level down: flush, push the current map onto the
        trail, and load the submap. */
    method NavigateToSubmap(submapId: MapId, flush: SaveReply, load: LoadReply) returns (ok: bool)
      requires Valid()
      modifies this
      ensures Valid()
      ensures ok == load.Loaded?
      ensures ok ==> state == Installed(Flushed(old(state), flush), submapId,
                                        old(state).breadcrumbs + [Crumb(old(state).currentMapId, old(state).currentMapName)],
                                        load.name, load.payload, load.rows)
      ensures !ok ==> state == Flushed(old(state), flush)
    {
      var s := state;
      Flush(flush);
      ok := LoadMap(submapId, s.breadcrumbs + [Crumb(s.currentMapId, s.currentMapName)], load);
    }

    /** Go back up the trail: to crumb `target` when given, else to the last
        one, keeping only the crumbs before it. Nothing happens when the
        trail is empty, the index names no crumb, the crumb's map was never
        saved, or the load fails. */
    method NavigateBack(target: Option<int>, load: LoadReply) returns (ok: bool)
      requires Valid()
      modifies this
      ensures Valid()
      ensures ok <==> BackStep(old(state).breadcrumbs, target).Some? && load.Loaded?
      ensures ok ==> var step := BackStep(old(state).breadcrumbs, target).value;
                     state == Installed(old(state), step.0, step.1, load.name, load.payload, load.rows)
      ensures !ok ==> state == old(state)
    {
      var trail := state.breadcrumbs;
      var k := BackIndex(|trail|, target);
      if k.None? {
        return false;
      }
      var crumb := trail[k.value];
      if crumb.mapId.None? {
        return false;
      }
      ok := LoadMap(crumb.mapId.value, trail[..k.value], load);
    }

    /** Move a node's subtree into a new map. The new record (`record`) is
        built from the subtree: the node and all its descendants, and the
        edges between them. When both the insert (`insert`) and the content
        upsert (`contentOk`) succeed, with the content rows in `rows`, the
        document drops the strict descendants and every edge touching one,
        marks the node as a pointer to the new map (`newMapId`), and is
        saved again (`final`). Otherwise the document is as it was. */
    method ConvertToSubmap(nodeId: NodeId, ghost depth: NodeId -> nat, flush: SaveReply, insert: MapWrite,
                           contentOk: bool, final: SaveReply)
      returns (ok: bool, newMapId: Option<MapId>, record: Option<SubmapRecord>, rows: seq<ContentRow>)
      requires Valid() && Layered(state.edges, depth)
      modifies this
      ensures Valid()
      ensures !HasNode(old(state).nodes, nodeId) ==> !ok && record == None && rows == [] && state == old(state)
      ensures HasNode(old(state).nodes, nodeId) ==>
                record == Some(SubmapRecordOf(old(state).nodes, old(state).edges, Subtree(old(state).edges, nodeId),
                                              FindNode(old(state).nodes, nodeId).value, old(state).currentMapId))
      ensures ok <==> HasNode(old(state).nodes, nodeId) && insert.Written? && contentOk
      ensures ok ==> newMapId == Some(insert.id)
                     && rows == SubmapContentRows(old(state).nodes, Subtree(old(state).edges, nodeId), insert.id)
                     && state == AfterSave(Flushed(old(state), flush).(
                                   nodes := ParentDocNodes(old(state).nodes, Subtree(old(state).edges, nodeId) - {nodeId}, nodeId, insert.id),
                                   edges := ParentDocEdges(old(state).edges, Subtree(old(state).edges, nodeId) - {nodeId}),
                                   isDirty := true), "", final)
      ensures !ok && HasNode(old(state).nodes, nodeId) ==> newMapId == None && state == Flushed(old(state), flush)
    {
      rows := [];
      newMapId := None;
      var found := FindNode(state.nodes, nodeId);
      if found.None? {
        return false, None, None, [];
      }
      var top := found.value;
      var doc := state;
      Flush(flush);
      var cm := BuildChildrenMap(doc.edges);
      var inside := CollectDescendants(cm, doc.edges, depth, nodeId, {nodeId}, false);
      assert inside == Subtree(doc.edges, nodeId);
      record := Some(SubmapRecordOf(doc.nodes, doc.edges, inside, top, doc.currentMapId));
      if insert.WriteFailed? {
        return false, None, record, [];
      }
      rows := SubmapContentRows(doc.nodes, inside, insert.id);
      if !contentOk {
        return false, None, record, rows;
      }
      var below := inside - {nodeId};
      state := state.(nodes := ParentDocNodes(doc.nodes, below, nodeId, insert.id), edges := ParentDocEdges(doc.edges, below),
                      isDirty := true);
      var saved, payload, savedRows := SaveMap("", final);
      ok := true;
      newMapId := Some(insert.id);
    }
  }
}
