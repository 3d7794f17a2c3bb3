/** The per-node rewrites behind the store's editing actions
    (`addChildNode`, `updateNodeData`, `setDescendantsCollapsed`), and what
    they do to the tree and to the canvas's hidden set. */
module Edits {
  import opened Types
  import opened Hierarchy
  import Canvas

  // ---------------------------------------------------------------------
  // addChildNode

  /** `NODE_WIDTHS`, indexed by level (levels above 3 use the last entry). */
  const NodeWidths: seq<int> := [190, 160, 135, 115]
  const HGap: int := 70
  const VSpacing: int := 70
  const DeepestLevel: nat := 3

  function Min(a: nat, b: nat): nat {
    if a < b then a else b
  }

  /** The nodes that are targets of an edge leaving `parentId`, in node order. */
  function ChildNodes(nodes: seq<Node>, edges: seq<Edge>, parentId: NodeId): (r: seq<Node>)
    ensures forall n :: n in r <==> n in nodes && Linked(edges, parentId, n.id)
  {
    var kids := ChildrenOf(edges, parentId);
    if nodes == [] then []
    else
      var rest := ChildNodes(nodes[1..], edges, parentId);
      assert forall n :: n in nodes <==> n == nodes[0] || n in nodes[1..];
      if nodes[0].id in kids then [nodes[0]] + rest else rest
  }

  /** The largest `y` among `ns`: the last entry after the source's sort by
      `y`. */
  function MaxY(ns: seq<Node>): (y: int)
    requires ns != []
    ensures exists n :: n in ns && n.position.y == y
    ensures forall n :: n in ns ==> n.position.y <= y
  {
    if |ns| == 1 then ns[0].position.y
    else
      var rest := MaxY(ns[1..]);
      assert forall n :: n in ns <==> n == ns[0] || n in ns[1..];
      if ns[0].position.y < rest then rest else ns[0].position.y
  }

  /** The edge id `e-<parent>-<child>`. */
  function ChildEdgeId(parentId: NodeId, childId: NodeId): string {
    "e-" + parentId + "-" + childId
  }

  /** The node `addChildNode` creates under `parent`: one level deeper
      (at most level 3), one parent width plus a gap to the right, and level
      with the parent or one spacing below its lowest existing child. */
  function NewChildNode(nodes: seq<Node>, edges: seq<Edge>, parent: Node, freshId: NodeId): (n: Node)
    ensures n.id == freshId && !n.selected && n.content == ""
    ensures n.attrs == Attrs("New Node", n.attrs.level, "", false, None, false, None)
    ensures n.attrs.level <= DeepestLevel
    ensures parent.attrs.level < DeepestLevel ==> n.attrs.level == parent.attrs.level + 1
    ensures parent.attrs.level >= DeepestLevel ==> n.attrs.level == DeepestLevel
    ensures n.position.x == parent.position.x + NodeWidths[Min(parent.attrs.level, DeepestLevel)] + HGap
    ensures (forall c :: c in nodes ==> !Linked(edges, parent.id, c.id)) ==> n.position.y == parent.position.y
    ensures (exists c :: c in nodes && Linked(edges, parent.id, c.id)) ==>
              (exists c :: c in nodes && Linked(edges, parent.id, c.id) && n.position.y == c.position.y + VSpacing)
              && (forall c :: c in nodes && Linked(edges, parent.id, c.id) ==> c.position.y + VSpacing <= n.position.y)
  {
    var level := Min(parent.attrs.level + 1, DeepestLevel);
    var x := parent.position.x + NodeWidths[Min(parent.attrs.level, DeepestLevel)] + HGap;
    var kids := ChildNodes(nodes, edges, parent.id);
    var y := if kids == [] then parent.position.y else MaxY(kids) + VSpacing;
    Node(freshId, Position(x, y), false, Attrs("New Node", level, "", false, None, false, None), "")
  }

  /** Every node with `selected` cleared, as `addChildNode` leaves the
      existing nodes. */
  function Deselect(nodes: seq<Node>): (r: seq<Node>)
    ensures |r| == |nodes|
    ensures forall i :: 0 <= i < |r| ==> r[i] == nodes[i].(selected := false)
  {
    seq(|nodes|, i requires 0 <= i < |nodes| => nodes[i].(selected := false))
  }

  /** The new edge from the parent to the new node. */
  function ChildEdge(parentId: NodeId, childId: NodeId): Edge {
    Edge(ChildEdgeId(parentId, childId), parentId, childId)
  }

  /** A child under an id no node has keeps node ids unique. */
  lemma AddChildKeepsUniqueIds(nodes: seq<Node>, edges: seq<Edge>, parent: Node, freshId: NodeId)
    requires UniqueIds(nodes) && !HasNode(nodes, freshId)
    ensures UniqueIds(Deselect(nodes) + [NewChildNode(nodes, edges, parent, freshId)])
  {
    var after := Deselect(nodes) + [NewChildNode(nodes, edges, parent, freshId)];
    forall i, j | 0 <= i < j < |after|
      ensures after[i].id != after[j].id
    {
      assert after[i].id == nodes[i].id;
      if j < |nodes| {
        assert after[j].id == nodes[j].id;
      }
    }
  }

  /** A depth assignment extended to a fresh node placed just below `parentId`. */
  ghost function DepthWithChild(depth: NodeId -> nat, parentId: NodeId, childId: NodeId): NodeId -> nat {
    (x: NodeId) => if x == childId then depth(parentId) + 1 else depth(x)
  }

  /** Adding a child under a fresh id keeps the edge list acyclic: the new
      node sits one layer below its parent and no other edge touches it. */
  lemma AddChildKeepsLayered(edges: seq<Edge>, depth: NodeId -> nat, parentId: NodeId, childId: NodeId)
    requires Layered(edges, depth)
    requires parentId != childId
    requires forall e :: e in edges ==> e.source != childId && e.target != childId
    ensures Layered(edges + [ChildEdge(parentId, childId)], DepthWithChild(depth, parentId, childId))
  {
    var d := DepthWithChild(depth, parentId, childId);
    forall e | e in edges + [ChildEdge(parentId, childId)]
      ensures d(e.source) < d(e.target)
    {
      if e in edges {
        assert d(e.source) == depth(e.source) && d(e.target) == depth(e.target);
      } else {
        assert e == ChildEdge(parentId, childId);
      }
    }
  }

  // ---------------------------------------------------------------------
  // updateNodeData

  /** The keys callers pass to `updateNodeData`: an absent entry leaves the
      field as it is. */
  datatype NodePatch = NodePatch(
    title: Option<string>,
    overview: Option<string>,
    content: Option<string>,
    collapsed: Option<bool>,
    kind: Option<NodeKind>)

  function Pick<T>(update: Option<T>, current: T): T {
    if update.Some? then update.value else current
  }

  /** `{ ...node.data, ...updates }`. */
  function ApplyPatch(n: Node, p: NodePatch): (r: Node)
    ensures r.id == n.id && r.position == n.position && r.selected == n.selected
    ensures r.attrs.level == n.attrs.level && r.attrs.isSubmap == n.attrs.isSubmap && r.attrs.submapId == n.attrs.submapId
    ensures p.title.Some? ==> r.attrs.title == p.title.value
    ensures p.title.None? ==> r.attrs.title == n.attrs.title
    ensures p.overview.Some? ==> r.attrs.overview == p.overview.value
    ensures p.overview.None? ==> r.attrs.overview == n.attrs.overview
    ensures p.content.Some? ==> r.content == p.content.value
    ensures p.content.None? ==> r.content == n.content
    ensures p.collapsed.Some? ==> r.attrs.collapsed == p.collapsed.value
    ensures p.collapsed.None? ==> r.attrs.collapsed == n.attrs.collapsed
    ensures p.kind.Some? ==> r.attrs.kind == p.kind
    ensures p.kind.None? ==> r.attrs.kind == n.attrs.kind
    ensures p == NodePatch(None, None, None, None, None) ==> r == n
  {
    n.(attrs := n.attrs.(title := Pick(p.title, n.attrs.title),
                         overview := Pick(p.overview, n.attrs.overview),
                         collapsed := Pick(p.collapsed, n.attrs.collapsed),
                         kind := if p.kind.Some? then p.kind else n.attrs.kind),
       content := Pick(p.content, n.content))
  }

  // ---------------------------------------------------------------------
  // setDescendantsCollapsed

  /** `toUpdate`: the node and its strict descendants, each only when it has
      children. */
  ghost function CollapseTargets(edges: seq<Edge>, nodeId: NodeId): (s: set<NodeId>)
    ensures forall x :: x in s <==> (x == nodeId || Descendant(edges, nodeId, x)) && HasChildren(edges, x)
  {
    set e | e in edges && (e.source == nodeId || Descendant(edges, nodeId, e.source)) :: e.source
  }

  /** Every node with its `collapsed` flag set when its id is a target; only
      that flag of only those nodes changes. */
  function SetCollapsed(nodes: seq<Node>, targets: set<NodeId>, collapse: bool): (r: seq<Node>)
    ensures |r| == |nodes|
    ensures forall i :: 0 <= i < |r| ==>
              r[i] == nodes[i].(attrs := nodes[i].attrs.(collapsed := r[i].attrs.collapsed))
              && (nodes[i].id in targets ==> r[i].attrs.collapsed == collapse)
              && (nodes[i].id !in targets ==> r[i] == nodes[i])
  {
    seq(|nodes|, i requires 0 <= i < |nodes| =>
      if nodes[i].id in targets then nodes[i].(attrs := nodes[i].attrs.(collapsed := collapse)) else nodes[i])
  }

  /** Collapsing everything under a present node with children hides every
      strict descendant of it on the canvas, and adds exactly those to what
      was hidden before. */
  lemma CollapseHidesDescendants(nodes: seq<Node>, edges: seq<Edge>, nodeId: NodeId)
    requires HasNode(nodes, nodeId) && HasChildren(edges, nodeId)
    ensures var after := SetCollapsed(nodes, CollapseTargets(edges, nodeId), true);
            forall x :: Canvas.Hidden(after, edges, x) <==> Canvas.Hidden(nodes, edges, x) || Descendant(edges, nodeId, x)
  {
    var t := CollapseTargets(edges, nodeId);
    var after := SetCollapsed(nodes, t, true);
    forall x
      ensures Canvas.Hidden(after, edges, x) <==> Canvas.Hidden(nodes, edges, x) || Descendant(edges, nodeId, x)
    {
      if Canvas.Hidden(after, edges, x) {
        var i :| 0 <= i < |after| && after[i].attrs.collapsed && Descendant(edges, after[i].id, x);
        if nodes[i].id in t {
          if nodes[i].id != nodeId {
            DescendantTransitive(edges, nodeId, nodes[i].id, x);
          }
        } else {
          assert nodes[i] == after[i];
        }
      }
      if Canvas.Hidden(nodes, edges, x) {
        var i :| 0 <= i < |nodes| && nodes[i].attrs.collapsed && Descendant(edges, nodes[i].id, x);
        assert after[i].id == nodes[i].id && after[i].attrs.collapsed;
      }
      if Descendant(edges, nodeId, x) {
        var i :| 0 <= i < |nodes| && nodes[i].id == nodeId;
        assert nodeId in t;
        assert after[i].id == nodeId && after[i].attrs.collapsed;
      }
    }
  }

  /** Expanding everything under a node never hides anything new, and a
      strict descendant of it stays hidden only through a collapsed node
      outside that node's subtree. */
  lemma ExpandUncoversDescendants(nodes: seq<Node>, edges: seq<Edge>, nodeId: NodeId, x: NodeId)
    requires Canvas.Hidden(SetCollapsed(nodes, CollapseTargets(edges, nodeId), false), edges, x)
    ensures Canvas.Hidden(nodes, edges, x)
    ensures Descendant(edges, nodeId, x) ==>
              exists i :: 0 <= i < |nodes| && nodes[i].attrs.collapsed && Descendant(edges, nodes[i].id, x)
                          && nodes[i].id != nodeId && !Descendant(edges, nodeId, nodes[i].id)
  {
    var t := CollapseTargets(edges, nodeId);
    var after := SetCollapsed(nodes, t, false);
    var i :| 0 <= i < |after| && after[i].attrs.collapsed && Descendant(edges, after[i].id, x);
    assert nodes[i].id !in t;
    assert nodes[i] == after[i];
    DescendantFirstStep(edges, nodes[i].id, x);
    assert HasChildren(edges, nodes[i].id);
  }
}
