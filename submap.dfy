/** The document surgery of `convertToSubmap`: a node and everything below
    it become a document of their own, and the original document keeps the
    node as a pointer to it. `inside` is the subtree (the node and its strict
    descendants), `below` the strict descendants alone. */
module Submap {
  import opened Types
  import opened Lists
  import opened Hierarchy
  import opened Persistence

  /** Where the converted node lands in the new document. */
  const CentreX: int := 350
  const CentreY: int := 250

  /** `Math.min(Math.max(v, lo), hi)`. */
  function Clamp(v: int, lo: int, hi: int): (r: int)
    requires lo <= hi
    ensures lo <= r <= hi
    ensures lo <= v <= hi ==> r == v
    ensures v < lo ==> r == lo
    ensures v > hi ==> r == hi
  {
    if v < lo then lo else if v > hi then hi else v
  }

  /** One member of the subtree as the new document holds it: shifted with
      the rest so the converted node sits at the centre, with levels counted
      from the converted node, and with no submap pointer fields. */
  function Relocate(n: Node, top: Node): Node {
    var isTop := n.id == top.id;
    n.(position := Position(n.position.x + (CentreX - top.position.x), n.position.y + (CentreY - top.position.y)),
       attrs := n.attrs.(
         level := if isTop then 0 else Clamp(n.attrs.level - top.attrs.level, 1, 3) as nat,
         isSubmap := false,
         submapId := None,
         collapsed := if isTop then false else n.attrs.collapsed))
  }

  /** The sub-tree nodes, in document order. */
  function SubtreeNodes(nodes: seq<Node>, inside: set<NodeId>): seq<Node> {
    Filter(nodes, (n: Node) => n.id in inside)
  }

  /** The edges with both ends in the subtree, in document order. */
  function SubtreeEdges(edges: seq<Edge>, inside: set<NodeId>): seq<Edge> {
    Filter(edges, (e: Edge) => e.source in inside && e.target in inside)
  }

  /** The nodes of the new document. */
  function ChildDocNodes(nodes: seq<Node>, inside: set<NodeId>, top: Node): seq<Node> {
    var kept := SubtreeNodes(nodes, inside);
    seq(|kept|, i requires 0 <= i < |kept| => Relocate(kept[i], top))
  }

  /** The map record inserted for the new document. */
  datatype SubmapRecord = SubmapRecord(name: string, payload: MapPayload, parentMapId: Option<MapId>, parentNodeId: NodeId)

  /** The new map record: named after the node (or "Submap" when the title
      is empty), its nodes stripped of content as for any save, and a link
      back to the parent map and node. */
  function SubmapRecordOf(nodes: seq<Node>, edges: seq<Edge>, inside: set<NodeId>, top: Node,
                          parentMapId: Option<MapId>): (rec: SubmapRecord)
    ensures rec.parentNodeId == top.id && rec.parentMapId == parentMapId
    ensures rec.name != ""
    ensures top.attrs.title != "" ==> rec.name == top.attrs.title
    ensures top.attrs.title == "" ==> rec.name == "Submap"
    ensures rec.payload == StructuralPayload(ChildDocNodes(nodes, inside, top), SubtreeEdges(edges, inside))
  {
    SubmapRecord(
      if top.attrs.title != "" then top.attrs.title else "Submap",
      StructuralPayload(ChildDocNodes(nodes, inside, top), SubtreeEdges(edges, inside)),
      parentMapId,
      top.id)
  }

  /** The content rows written for the new document: every subtree node,
      pointer or not, now owned by the new map. */
  function SubmapContentRows(nodes: seq<Node>, inside: set<NodeId>, newMapId: MapId): (rows: seq<ContentRow>)
    ensures forall r :: r in rows <==> exists n :: n in nodes && n.id in inside && r == RowOf(n, newMapId)
  {
    var kept := SubtreeNodes(nodes, inside);
    var rows := seq(|kept|, i requires 0 <= i < |kept| => RowOf(kept[i], newMapId));
    assert forall r :: r in rows ==> exists n :: n in nodes && n.id in inside && r == RowOf(n, newMapId) by {
      forall r | r in rows
        ensures exists n :: n in nodes && n.id in inside && r == RowOf(n, newMapId)
      {
        var i :| 0 <= i < |rows| && rows[i] == r;
        assert kept[i] in kept;
      }
    }
    assert forall n :: n in nodes && n.id in inside ==> RowOf(n, newMapId) in rows by {
      forall n | n in nodes && n.id in inside
        ensures RowOf(n, newMapId) in rows
      {
        assert n in kept;
        var i :| 0 <= i < |kept| && kept[i] == n;
        assert rows[i] == RowOf(n, newMapId);
      }
    }
    rows
  }

  /** The converted node as the parent document keeps it: a collapsed-off
      pointer to the new map. */
  function MarkPointer(n: Node, nodeId: NodeId, newMapId: MapId): Node {
    if n.id == nodeId then n.(attrs := n.attrs.(isSubmap := true, submapId := Some(newMapId), collapsed := false))
    else n
  }

  /** The parent document's nodes: the strict descendants dropped and the
      converted node marked. */
  function ParentDocNodes(nodes: seq<Node>, below: set<NodeId>, nodeId: NodeId, newMapId: MapId): seq<Node> {
    var kept := Filter(nodes, (n: Node) => n.id !in below);
    seq(|kept|, i requires 0 <= i < |kept| => MarkPointer(kept[i], nodeId, newMapId))
  }

  /** The parent document's edges: every edge touching a strict descendant dropped. */
  function ParentDocEdges(edges: seq<Edge>, below: set<NodeId>): seq<Edge> {
    Filter(edges, (e: Edge) => e.source !in below && e.target !in below)
  }

  /** `inside` is the converted node with its strict descendants, as the
      `collectIds` walk gathers it. */
  ghost predicate IsSubtree(edges: seq<Edge>, nodeId: NodeId, inside: set<NodeId>) {
    forall x :: x in inside <==> x == nodeId || Descendant(edges, nodeId, x)
  }

  /** The converted node with all its strict descendants. */
  ghost function Subtree(edges: seq<Edge>, nodeId: NodeId): (inside: set<NodeId>)
    ensures IsSubtree(edges, nodeId, inside)
  {
    var s := {nodeId} + set e | e in edges && Descendant(edges, nodeId, e.target) :: e.target;
    assert forall x :: Descendant(edges, nodeId, x) ==> x in s by {
      forall x | Descendant(edges, nodeId, x)
        ensures x in s
      {
        DescendantIsTarget(edges, nodeId, x);
      }
    }
    s
  }

  /** `below` is the set of strict descendants. */
  ghost predicate IsBelow(edges: seq<Edge>, nodeId: NodeId, below: set<NodeId>) {
    forall x :: x in below <==> Descendant(edges, nodeId, x)
  }

  /** Without cycles, removing the converted node from the subtree leaves
      exactly its strict descendants: the converted node is never its own
      descendant, so the parent document keeps it. */
  lemma BelowIsSubtreeMinusTop(edges: seq<Edge>, depth: NodeId -> nat, nodeId: NodeId, inside: set<NodeId>)
    requires Layered(edges, depth) && IsSubtree(edges, nodeId, inside)
    ensures IsBelow(edges, nodeId, inside - {nodeId})
    ensures nodeId in inside
  {
    NotOwnDescendant(edges, depth, nodeId);
  }

  /** The new document: exactly the subtree members, relocated; every
      member other than the converted node at a level between 1 and 3; no
      member a pointer. */
  lemma ChildDocShape(nodes: seq<Node>, inside: set<NodeId>, top: Node)
    ensures var doc := ChildDocNodes(nodes, inside, top);
            (forall m :: m in doc <==> exists n :: n in nodes && n.id in inside && m == Relocate(n, top))
            && (forall m :: m in doc && m.id != top.id ==> 1 <= m.attrs.level <= 3)
            && (forall m :: m in doc ==> !m.attrs.isSubmap && m.attrs.submapId.None?)
  {
    var kept := SubtreeNodes(nodes, inside);
    var doc := ChildDocNodes(nodes, inside, top);
    forall m | m in doc
      ensures exists n :: n in nodes && n.id in inside && m == Relocate(n, top)
    {
      var i :| 0 <= i < |doc| && doc[i] == m;
      assert kept[i] in kept;
    }
    forall n | n in nodes && n.id in inside
      ensures Relocate(n, top) in doc
    {
      assert n in kept;
      var i :| 0 <= i < |kept| && kept[i] == n;
      assert doc[i] == Relocate(n, top);
    }
  }

  /** With unique ids, the converted node (the only member with its id)
      lands at the centre of the new document, at level 0 and expanded. */
  lemma ChildDocCentresTop(nodes: seq<Node>, inside: set<NodeId>, top: Node)
    requires UniqueIds(nodes) && top in nodes
    ensures forall m :: m in ChildDocNodes(nodes, inside, top) && m.id == top.id ==>
              m.position == Position(CentreX, CentreY) && m.attrs.level == 0 && !m.attrs.collapsed
  {
    var kept := SubtreeNodes(nodes, inside);
    var doc := ChildDocNodes(nodes, inside, top);
    var t :| 0 <= t < |nodes| && nodes[t] == top;
    forall m | m in doc && m.id == top.id
      ensures m.position == Position(CentreX, CentreY)
    {
      var i :| 0 <= i < |doc| && doc[i] == m;
      assert kept[i] in kept;
      var j :| 0 <= j < |nodes| && nodes[j] == kept[i];
      assert j == t;
    }
  }

  /** Relocation moves every member by the same offset. */
  lemma RelocateKeepsLayout(a: Node, b: Node, top: Node)
    ensures Relocate(a, top).position.x - Relocate(b, top).position.x == a.position.x - b.position.x
    ensures Relocate(a, top).position.y - Relocate(b, top).position.y == a.position.y - b.position.y
    ensures Relocate(a, top).id == a.id && Relocate(a, top).content == a.content
  {
  }

  /** A subtree is closed under edges: an edge leaving a member ends at a
      member, so the new document's edges are exactly those leaving its
      nodes. */
  lemma SubtreeEdgesLeaveMembers(edges: seq<Edge>, nodeId: NodeId, inside: set<NodeId>)
    requires IsSubtree(edges, nodeId, inside)
    ensures forall e :: e in SubtreeEdges(edges, inside) <==> e in edges && e.source in inside
  {
    forall e | e in edges && e.source in inside
      ensures e.target in inside
    {
      assert Linked(edges, e.source, e.target);
      ChildIsDescendant(edges, e.source, e.target);
      if e.source != nodeId {
        DescendantTransitive(edges, nodeId, e.source, e.target);
      }
    }
  }

  /** The parent document keeps exactly the nodes outside `below`, in order,
      each passed through `MarkPointer`. */
  lemma ParentDocShape(nodes: seq<Node>, below: set<NodeId>, nodeId: NodeId, newMapId: MapId)
    ensures var doc := ParentDocNodes(nodes, below, nodeId, newMapId);
            (forall m :: m in doc <==> exists n :: n in nodes && n.id !in below && m == MarkPointer(n, nodeId, newMapId))
            && |doc| <= |nodes|
  {
    var kept := Filter(nodes, (n: Node) => n.id !in below);
    var doc := ParentDocNodes(nodes, below, nodeId, newMapId);
    forall m | m in doc
      ensures exists n :: n in nodes && n.id !in below && m == MarkPointer(n, nodeId, newMapId)
    {
      var i :| 0 <= i < |doc| && doc[i] == m;
      assert kept[i] in kept;
    }
    forall n | n in nodes && n.id !in below
      ensures MarkPointer(n, nodeId, newMapId) in doc
    {
      assert n in kept;
      var i :| 0 <= i < |kept| && kept[i] == n;
      assert doc[i] == MarkPointer(n, nodeId, newMapId);
    }
  }

  /** The converted node stays in the parent document, as an expanded
      pointer to the new map; every other kept node is unchanged. */
  lemma ParentDocMarksPointer(nodes: seq<Node>, below: set<NodeId>, nodeId: NodeId, newMapId: MapId)
    requires nodeId !in below
    ensures var doc := ParentDocNodes(nodes, below, nodeId, newMapId);
            (forall m :: m in doc && m.id == nodeId ==>
               m.attrs.isSubmap && m.attrs.submapId == Some(newMapId) && !m.attrs.collapsed)
            && (forall m :: m in doc && m.id != nodeId ==> m in nodes)
            && (HasNode(nodes, nodeId) ==> HasNode(doc, nodeId))
  {
    var kept := Filter(nodes, (n: Node) => n.id !in below);
    var doc := ParentDocNodes(nodes, below, nodeId, newMapId);
    forall m | m in doc
      ensures m.id == nodeId ==> m.attrs.isSubmap && m.attrs.submapId == Some(newMapId) && !m.attrs.collapsed
      ensures m.id != nodeId ==> m in nodes
    {
      var k :| 0 <= k < |doc| && doc[k] == m;
      assert kept[k] in kept;
    }
    if HasNode(nodes, nodeId) {
      var i :| 0 <= i < |nodes| && nodes[i].id == nodeId;
      assert nodes[i] in kept;
      var k :| 0 <= k < |kept| && kept[k] == nodes[i];
      assert doc[k].id == nodeId;
    }
  }

  /** Where each edge of the original document goes. Without cycles, an
      edge lands in the parent document or in the new one, never both; the
      only edges in neither are those that enter the subtree below the
      converted node from outside it, which a hand-drawn connection can
      create. */
  lemma EdgesPartition(edges: seq<Edge>, depth: NodeId -> nat, nodeId: NodeId, inside: set<NodeId>)
    requires Layered(edges, depth) && IsSubtree(edges, nodeId, inside)
    ensures var below := inside - {nodeId};
            forall e :: e in edges ==>
              (e in ParentDocEdges(edges, below) <==> e.source !in below && e.target !in below)
              && (e in SubtreeEdges(edges, inside) <==> e.source in inside)
              && !(e in ParentDocEdges(edges, below) && e in SubtreeEdges(edges, inside))
              && ((e !in ParentDocEdges(edges, below) && e !in SubtreeEdges(edges, inside))
                  <==> (e.source !in inside && e.target in below))
  {
    var below := inside - {nodeId};
    BelowIsSubtreeMinusTop(edges, depth, nodeId, inside);
    SubtreeEdgesLeaveMembers(edges, nodeId, inside);
    forall e | e in edges
      ensures e.source in inside ==> e.target in below
    {
      if e.source in inside {
        assert Linked(edges, e.source, e.target);
        ChildIsDescendant(edges, e.source, e.target);
        if e.source != nodeId {
          DescendantTransitive(edges, nodeId, e.source, e.target);
        }
      }
    }
  }
}
