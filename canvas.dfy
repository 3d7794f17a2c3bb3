/** The display-only views the canvas derives from `(nodes, edges)` on every
    render: the root, the branch colours, the hidden nodes and edges, and the
    two collapse-all flags. Each is a pure function of the document; the
    loops that compute them are proved against recursive definitions. */
module Canvas {
  import opened Types
  import opened Hierarchy

  /** One colour per level-1 branch, assigned in node order. */
  const L1Palette: seq<string> := [
    "#3b82f6", "#10b981", "#f97316", "#8b5cf6", "#f43f5e",
    "#06b6d4", "#f59e0b", "#14b8a6", "#6366f1", "#d946ef"
  ]

  /** The neutral border of the central topic. */
  const RootBorder: string := "#64748b"

  // ---------------------------------------------------------------------
  // Root

  /** `rootId`: the id of the first node at level 0, if any. */
  function RootId(nodes: seq<Node>): (r: Option<NodeId>)
    ensures r.None? <==> forall i :: 0 <= i < |nodes| ==> nodes[i].attrs.level != 0
    ensures r.Some? ==> exists i :: 0 <= i < |nodes| && nodes[i].id == r.value && nodes[i].attrs.level == 0
                                    && forall j :: 0 <= j < i ==> nodes[j].attrs.level != 0
  {
    if nodes == [] then None
    else if nodes[0].attrs.level == 0 then Some(nodes[0].id)
    else
      var r := RootId(nodes[1..]);
      assert forall i :: 0 < i < |nodes| ==> nodes[i] == nodes[1..][i - 1];
      if r.Some? then
        var i :| 0 <= i < |nodes[1..]| && nodes[1..][i].id == r.value && nodes[1..][i].attrs.level == 0
                 && forall j :: 0 <= j < i ==> nodes[1..][j].attrs.level != 0;
        assert forall j :: 0 <= j < i + 1 ==> nodes[j].attrs.level != 0 by {
          forall j | 0 <= j < i + 1 ensures nodes[j].attrs.level != 0 {
            if j > 0 { assert nodes[j] == nodes[1..][j - 1]; }
          }
        }
        r
      else r
  }

  // ---------------------------------------------------------------------
  // Branch colours

  /** `parentMap[id] === rootId`: the node hangs directly off an existing root. */
  predicate IsBranchHead(edges: seq<Edge>, root: Option<NodeId>, id: NodeId) {
    root.Some? && ParentOf(edges, id) == root
  }

  /** The id of every node, in node order. */
  function NodeIds(nodes: seq<Node>): seq<NodeId> {
    seq(|nodes|, i requires 0 <= i < |nodes| => nodes[i].id)
  }

  /** The ids of the nodes that are branch heads, in node order. */
  function BranchHeads(nodes: seq<Node>, edges: seq<Edge>, root: Option<NodeId>): (heads: seq<NodeId>)
    ensures forall k :: k in heads <==> IsBranchHead(edges, root, k) && HasNode(nodes, k)
    ensures |heads| <= |nodes|
  {
    if nodes == [] then []
    else
      var front := nodes[..|nodes| - 1];
      var last := nodes[|nodes| - 1];
      assert forall k :: HasNode(nodes, k) <==> HasNode(front, k) || last.id == k by {
        forall k ensures HasNode(nodes, k) <==> HasNode(front, k) || last.id == k {
          if HasNode(front, k) {
            var i :| 0 <= i < |front| && front[i].id == k;
            assert nodes[i].id == k;
          }
          if HasNode(nodes, k) && last.id != k {
            var i :| 0 <= i < |nodes| && nodes[i].id == k;
            assert front[i].id == k;
          }
        }
      }
      BranchHeads(front, edges, root) + (if IsBranchHead(edges, root, last.id) then [last.id] else [])
  }

  /** The colour of the `j`-th branch: the palette, cycled. */
  function BranchColor(j: nat): string {
    L1Palette[j % |L1Palette|]
  }

  /** `heads[j]` is not listed again after position `j`. */
  predicate LastListing(heads: seq<NodeId>, j: nat)
    requires j < |heads|
  {
    forall j' :: j < j' < |heads| ==> heads[j'] != heads[j]
  }

  /** Paint the `j`-th branch head with `BranchColor(j)`, later listings
      overwriting earlier ones, as the `l1ColorMap` loop does. */
  function ColorTable(heads: seq<NodeId>): map<NodeId, string> {
    if heads == [] then map[]
    else ColorTable(heads[..|heads| - 1])[heads[|heads| - 1] := BranchColor(|heads| - 1)]
  }

  lemma ColorTableStep(heads: seq<NodeId>, k: NodeId)
    ensures ColorTable(heads + [k]) == ColorTable(heads)[k := BranchColor(|heads|)]
  {
    assert (heads + [k])[..|heads|] == heads;
  }

  /** Every branch head gets a colour, nothing else does, and a head listed
      once (as with unique node ids) gets the colour of its rank. */
  lemma {:induction false} ColorTableMeaning(heads: seq<NodeId>)
    ensures forall k :: k in ColorTable(heads) <==> k in heads
    ensures forall j :: 0 <= j < |heads| && LastListing(heads, j) ==> ColorTable(heads)[heads[j]] == BranchColor(j)
  {
    if heads != [] {
      var front := heads[..|heads| - 1];
      var last := heads[|heads| - 1];
      assert heads == front + [last];
      ColorTableMeaning(front);
      ColorTableStep(front, last);
      forall j | 0 <= j < |heads| && LastListing(heads, j)
        ensures ColorTable(heads)[heads[j]] == BranchColor(j)
      {
        if j < |heads| - 1 {
          assert heads[j] != last;
          assert LastListing(front, j);
        }
      }
    }
  }

  /** `l1ColorMap`: empty without a root, otherwise the colour table of the
      branch heads. */
  function L1Colors(nodes: seq<Node>, edges: seq<Edge>, root: Option<NodeId>): map<NodeId, string> {
    if root.None? then map[] else ColorTable(BranchHeads(nodes, edges, root))
  }

  lemma BranchHeadsStep(nodes: seq<Node>, edges: seq<Edge>, root: Option<NodeId>, i: nat)
    requires i < |nodes|
    ensures BranchHeads(nodes[..i + 1], edges, root)
            == BranchHeads(nodes[..i], edges, root) + (if IsBranchHead(edges, root, nodes[i].id) then [nodes[i].id] else [])
  {
    assert nodes[..i + 1][..i] == nodes[..i];
  }

  /** The `l1ColorMap` loop, with its running palette index. */
  method BuildL1ColorMap(nodes: seq<Node>, pm: map<NodeId, NodeId>, ghost edges: seq<Edge>, root: Option<NodeId>)
    returns (m: map<NodeId, string>)
    requires ParentTable(pm, edges)
    ensures m == L1Colors(nodes, edges, root)
    ensures forall k :: k in m <==> IsBranchHead(edges, root, k) && HasNode(nodes, k)
  {
    if root.None? {
      return map[];
    }
    m := map[];
    var idx := 0;
    var i := 0;
    while i < |nodes|
      invariant 0 <= i <= |nodes|
      invariant idx == |BranchHeads(nodes[..i], edges, root)|
      invariant m == ColorTable(BranchHeads(nodes[..i], edges, root))
    {
      var n := nodes[i];
      BranchHeadsStep(nodes, edges, root, i);
      ghost var heads := BranchHeads(nodes[..i], edges, root);
      assert (n.id in pm && Some(pm[n.id]) == root) <==> IsBranchHead(edges, root, n.id);
      if n.id in pm && Some(pm[n.id]) == root {
        assert BranchHeads(nodes[..i + 1], edges, root) == heads + [n.id];
        ColorTableStep(heads, n.id);
        m := m[n.id := BranchColor(idx)];
        idx := idx + 1;
      } else {
        assert BranchHeads(nodes[..i + 1], edges, root) == heads;
      }
      i := i + 1;
    }
    assert nodes[..i] == nodes;
    ColorTableMeaning(BranchHeads(nodes, edges, root));
  }

  // ---------------------------------------------------------------------
  // Parent chains

  lemma ParentShallower(edges: seq<Edge>, depth: NodeId -> nat, y: NodeId)
    requires Layered(edges, depth) && ParentOf(edges, y).Some?
    ensures depth(ParentOf(edges, y).value) < depth(y)
  {
    ParentIsLinked(edges, y);
    LinkedDeeper(edges, depth, ParentOf(edges, y).value, y);
  }

  /** The strict ancestors of `y` along `parentMap`. */
  ghost function Ancestors(edges: seq<Edge>, depth: NodeId -> nat, y: NodeId): set<NodeId>
    requires Layered(edges, depth)
    decreases depth(y)
  {
    match ParentOf(edges, y)
    case None => {}
    case Some(p) =>
      ParentShallower(edges, depth, y);
      {p} + Ancestors(edges, depth, p)
  }

  /** `cur` and its ancestors, where `cur` is a possibly missing `parentMap` entry. */
  ghost function ChainFrom(edges: seq<Edge>, depth: NodeId -> nat, cur: Option<NodeId>): set<NodeId>
    requires Layered(edges, depth)
  {
    match cur
    case None => {}
    case Some(c) => {c} + Ancestors(edges, depth, c)
  }

  lemma {:induction false} AncestorShallower(edges: seq<Edge>, depth: NodeId -> nat, y: NodeId, a: NodeId)
    requires Layered(edges, depth) && a in Ancestors(edges, depth, y)
    ensures depth(a) < depth(y)
    decreases depth(y)
  {
    var p := ParentOf(edges, y).value;
    ParentShallower(edges, depth, y);
    if a != p {
      AncestorShallower(edges, depth, p, a);
    }
  }

  /** A `parentMap` ancestor is an ancestor in the edge relation too. */
  lemma {:induction false} AncestorIsAbove(edges: seq<Edge>, depth: NodeId -> nat, y: NodeId, a: NodeId)
    requires Layered(edges, depth) && a in Ancestors(edges, depth, y)
    ensures Descendant(edges, a, y)
    decreases depth(y)
  {
    var p := ParentOf(edges, y).value;
    ParentShallower(edges, depth, y);
    ParentIsLinked(edges, y);
    if a == p {
      ChildIsDescendant(edges, a, y);
    } else {
      AncestorIsAbove(edges, depth, p, a);
      ChildIsDescendant(edges, p, y);
      DescendantTransitive(edges, a, p, y);
    }
  }

  /** Any two nodes on one parent chain are ordered. */
  lemma {:induction false} ChainOrdered(edges: seq<Edge>, depth: NodeId -> nat, x: NodeId, a: NodeId, b: NodeId)
    requires Layered(edges, depth)
    requires a in {x} + Ancestors(edges, depth, x) && b in {x} + Ancestors(edges, depth, x)
    ensures a == b || a in Ancestors(edges, depth, b) || b in Ancestors(edges, depth, a)
    decreases depth(x)
  {
    if a != x && b != x {
      var p := ParentOf(edges, x).value;
      ParentShallower(edges, depth, x);
      ChainOrdered(edges, depth, p, a, b);
    }
  }

  /** A parent chain holds at most one branch head: a second one would put
      the root above and below the same node. */
  lemma OneBranchHeadPerChain(edges: seq<Edge>, depth: NodeId -> nat, root: Option<NodeId>, x: NodeId, a: NodeId, b: NodeId)
    requires Layered(edges, depth)
    requires a in {x} + Ancestors(edges, depth, x) && b in {x} + Ancestors(edges, depth, x)
    requires IsBranchHead(edges, root, a) && IsBranchHead(edges, root, b)
    ensures a == b
  {
    ChainOrdered(edges, depth, x, a, b);
    if a in Ancestors(edges, depth, b) {
      HeadNotAboveHead(edges, depth, root, b, a);
    } else if b in Ancestors(edges, depth, a) {
      HeadNotAboveHead(edges, depth, root, a, b);
    }
  }

  lemma HeadNotAboveHead(edges: seq<Edge>, depth: NodeId -> nat, root: Option<NodeId>, lower: NodeId, upper: NodeId)
    requires Layered(edges, depth)
    requires IsBranchHead(edges, root, lower) && IsBranchHead(edges, root, upper)
    ensures upper !in Ancestors(edges, depth, lower)
  {
    var r := root.value;
    ParentShallower(edges, depth, lower);
    ParentShallower(edges, depth, upper);
    if upper in Ancestors(edges, depth, lower) {
      assert Ancestors(edges, depth, lower) == {r} + Ancestors(edges, depth, r);
      if upper != r {
        AncestorShallower(edges, depth, r, upper);
      }
      assert false;
    }
  }

  /** The walk `getL1Id` performs, as a recursive definition: climb
      `parentMap` until the parent is the root. */
  function L1Of(edges: seq<Edge>, ghost depth: NodeId -> nat, root: Option<NodeId>, x: NodeId): Option<NodeId>
    requires Layered(edges, depth)
    decreases depth(x)
  {
    match ParentOf(edges, x)
    case None => None
    case Some(p) =>
      if Some(p) == root then Some(x)
      else
        ParentShallower(edges, depth, x);
        L1Of(edges, depth, root, p)
  }

  /** `getL1Id(x)` is the unique branch head among `x` and its ancestors,
      and null when there is none. */
  lemma {:induction false} L1OfIsBranchAncestor(edges: seq<Edge>, depth: NodeId -> nat, root: Option<NodeId>, x: NodeId, a: NodeId)
    requires Layered(edges, depth)
    ensures L1Of(edges, depth, root, x) == Some(a)
            <==> IsBranchHead(edges, root, a) && a in {x} + Ancestors(edges, depth, x)
    decreases depth(x)
  {
    match ParentOf(edges, x)
    case None =>
    case Some(p) =>
      if Some(p) == root {
        if IsBranchHead(edges, root, a) && a in {x} + Ancestors(edges, depth, x) {
          OneBranchHeadPerChain(edges, depth, root, x, a, x);
        }
      } else {
        ParentShallower(edges, depth, x);
        L1OfIsBranchAncestor(edges, depth, root, p, a);
      }
  }

  /** The `getL1Id` loop. */
  method GetL1Id(pm: map<NodeId, NodeId>, ghost edges: seq<Edge>, ghost depth: NodeId -> nat,
                 root: Option<NodeId>, x: NodeId) returns (r: Option<NodeId>)
    requires ParentTable(pm, edges) && Layered(edges, depth)
    ensures r == L1Of(edges, depth, root, x)
  {
    var current := x;
    while current in pm && Some(pm[current]) != root
      invariant L1Of(edges, depth, root, current) == L1Of(edges, depth, root, x)
      decreases depth(current)
    {
      ParentShallower(edges, depth, current);
      current := pm[current];
    }
    r := if current in pm && Some(pm[current]) == root then Some(current) else None;
  }

  // ---------------------------------------------------------------------
  // Hidden nodes and edges

  /** `x` lies strictly below some collapsed node. */
  ghost predicate Hidden(nodes: seq<Node>, edges: seq<Edge>, x: NodeId) {
    exists i :: 0 <= i < |nodes| && nodes[i].attrs.collapsed && Descendant(edges, nodes[i].id, x)
  }

  ghost predicate HiddenByFirst(nodes: seq<Node>, edges: seq<Edge>, n: nat, x: NodeId)
    requires n <= |nodes|
  {
    exists i :: 0 <= i < n && nodes[i].attrs.collapsed && Descendant(edges, nodes[i].id, x)
  }

  /** The `hiddenNodeIds` loop: collect below every collapsed node. */
  method HiddenNodeIds(nodes: seq<Node>, cm: map<NodeId, seq<NodeId>>, ghost edges: seq<Edge>,
                       ghost depth: NodeId -> nat) returns (hidden: set<NodeId>)
    requires ChildrenTable(cm, edges) && Layered(edges, depth)
    ensures forall x :: x in hidden <==> Hidden(nodes, edges, x)
  {
    hidden := {};
    var i := 0;
    while i < |nodes|
      invariant 0 <= i <= |nodes|
      invariant forall x :: x in hidden <==> HiddenByFirst(nodes, edges, i, x)
    {
      ghost var before := hidden;
      if nodes[i].attrs.collapsed {
        hidden := CollectDescendants(cm, edges, depth, nodes[i].id, hidden, false);
      }
      forall x
        ensures x in hidden <==> HiddenByFirst(nodes, edges, i + 1, x)
      {
        assert x in hidden <==> x in before || (nodes[i].attrs.collapsed && Descendant(edges, nodes[i].id, x));
      }
      i := i + 1;
    }
  }

  /** A collapsed node is hidden only when another collapsed node lies
      above it: collapsing never hides the node itself. */
  lemma CollapsedNodeStaysVisible(nodes: seq<Node>, edges: seq<Edge>, depth: NodeId -> nat, x: NodeId)
    requires Layered(edges, depth)
    requires forall i :: 0 <= i < |nodes| && nodes[i].attrs.collapsed && nodes[i].id != x
                         ==> !Descendant(edges, nodes[i].id, x)
    ensures !Hidden(nodes, edges, x)
  {
    NotOwnDescendant(edges, depth, x);
  }

  datatype ShownEdge = ShownEdge(edge: Edge, hidden: bool)

  /** `displayEdges`: every edge, in order, flagged hidden when its target is. */
  function DisplayEdges(edges: seq<Edge>, hidden: set<NodeId>): (r: seq<ShownEdge>)
    ensures |r| == |edges|
    ensures forall i :: 0 <= i < |r| ==> r[i].edge == edges[i]
  {
    seq(|edges|, i requires 0 <= i < |edges| => ShownEdge(edges[i], edges[i].target in hidden))
  }

  /** Given the hidden set of the document, an edge is hidden exactly when
      its target lies below a collapsed node, and so every edge leaving a
      collapsed node is hidden. */
  lemma DisplayEdgesFollowCollapse(nodes: seq<Node>, edges: seq<Edge>, hidden: set<NodeId>)
    requires forall x :: x in hidden <==> Hidden(nodes, edges, x)
    ensures forall i :: 0 <= i < |edges| ==>
              (DisplayEdges(edges, hidden)[i].hidden <==> Hidden(nodes, edges, edges[i].target))
    ensures forall i, j :: 0 <= i < |edges| && 0 <= j < |nodes| && nodes[j].attrs.collapsed && nodes[j].id == edges[i].source
                           ==> DisplayEdges(edges, hidden)[i].hidden
  {
    forall i, j | 0 <= i < |edges| && 0 <= j < |nodes| && nodes[j].attrs.collapsed && nodes[j].id == edges[i].source
      ensures DisplayEdges(edges, hidden)[i].hidden
    {
      assert edges[i] in edges;
      ChildIsDescendant(edges, edges[i].source, edges[i].target);
    }
  }

  // ---------------------------------------------------------------------
  // "Has collapsible descendants"

  /** With every member, the set holds that member's `parentMap` parent. */
  ghost predicate UpClosed(edges: seq<Edge>, s: set<NodeId>) {
    forall y :: y in s && ParentOf(edges, y).Some? ==> ParentOf(edges, y).value in s
  }

  lemma {:induction false} UpClosedHoldsAncestors(edges: seq<Edge>, depth: NodeId -> nat, s: set<NodeId>, y: NodeId)
    requires Layered(edges, depth) && UpClosed(edges, s) && y in s
    ensures Ancestors(edges, depth, y) <= s
    decreases depth(y)
  {
    if ParentOf(edges, y).Some? {
      ParentShallower(edges, depth, y);
      UpClosedHoldsAncestors(edges, depth, s, ParentOf(edges, y).value);
    }
  }

  lemma {:induction false} AncestorsUpClosed(edges: seq<Edge>, depth: NodeId -> nat, y: NodeId)
    requires Layered(edges, depth)
    ensures UpClosed(edges, Ancestors(edges, depth, y))
    decreases depth(y)
  {
    if ParentOf(edges, y).Some? {
      var p := ParentOf(edges, y).value;
      ParentShallower(edges, depth, y);
      AncestorsUpClosed(edges, depth, p);
    }
  }

  lemma ChainFromStep(edges: seq<Edge>, depth: NodeId -> nat, c: NodeId)
    requires Layered(edges, depth)
    ensures ChainFrom(edges, depth, Some(c)) == {c} + ChainFrom(edges, depth, ParentOf(edges, c))
    ensures ParentOf(edges, c).Some? ==> depth(ParentOf(edges, c).value) < depth(c)
  {
    if ParentOf(edges, c).Some? {
      ParentShallower(edges, depth, c);
    }
  }

  /** One climbing step of `markAncestors`: adding `c` and moving on to its
      parent keeps the loop's invariants. */
  lemma MarkStep(edges: seq<Edge>, depth: NodeId -> nat, y: NodeId, acc: set<NodeId>, r: set<NodeId>, c: NodeId)
    requires Layered(edges, depth)
    requires acc <= r <= acc + Ancestors(edges, depth, y)
    requires ChainFrom(edges, depth, Some(c)) <= Ancestors(edges, depth, y)
    requires Ancestors(edges, depth, y) <= r + ChainFrom(edges, depth, Some(c))
    requires forall z :: z in r - acc ==> depth(c) < depth(z)
    requires c !in r
    ensures acc <= r + {c} <= acc + Ancestors(edges, depth, y)
    ensures ChainFrom(edges, depth, ParentOf(edges, c)) <= Ancestors(edges, depth, y)
    ensures Ancestors(edges, depth, y) <= r + {c} + ChainFrom(edges, depth, ParentOf(edges, c))
    ensures ParentOf(edges, c).Some? ==> forall z :: z in r + {c} - acc ==> depth(ParentOf(edges, c).value) < depth(z)
  {
    ChainFromStep(edges, depth, c);
    assert forall z :: z in r + {c} - acc ==> z == c || z in r - acc;
  }

  /** The inner `markAncestors(y)`: climb from `parentMap[y]`, adding every
      node met, and stop early at a node already in the set, whose own
      ancestors are then already there. */
  method MarkAncestors(pm: map<NodeId, NodeId>, ghost edges: seq<Edge>, ghost depth: NodeId -> nat,
                       y: NodeId, acc: set<NodeId>) returns (r: set<NodeId>)
    requires ParentTable(pm, edges) && Layered(edges, depth) && UpClosed(edges, acc)
    ensures r == acc + Ancestors(edges, depth, y)
    ensures UpClosed(edges, r)
  {
    r := acc;
    var cur := if y in pm then Some(pm[y]) else None;
    assert cur == ParentOf(edges, y);
    while cur.Some?
      invariant acc <= r <= acc + Ancestors(edges, depth, y)
      invariant ChainFrom(edges, depth, cur) <= Ancestors(edges, depth, y)
      invariant Ancestors(edges, depth, y) <= r + ChainFrom(edges, depth, cur)
      invariant cur.Some? ==> forall z :: z in r - acc ==> depth(cur.value) < depth(z)
      decreases if cur.Some? then depth(cur.value) + 1 else 0
    {
      var c := cur.value;
      if c in r {
        UpClosedHoldsAncestors(edges, depth, acc, c);
        assert ChainFrom(edges, depth, cur) <= r;
        break;
      }
      MarkStep(edges, depth, y, acc, r, c);
      r := r + {c};
      assert (if c in pm then Some(pm[c]) else None) == ParentOf(edges, c);
      cur := if c in pm then Some(pm[c]) else None;
    }
    assert r == acc + Ancestors(edges, depth, y);
    AncestorsUpClosed(edges, depth, y);
  }

  /** Some node with children has `a` among its `parentMap` ancestors. */
  ghost predicate CollapsibleBelow(nodes: seq<Node>, edges: seq<Edge>, depth: NodeId -> nat, a: NodeId)
    requires Layered(edges, depth)
  {
    exists j :: 0 <= j < |nodes| && HasChildren(edges, nodes[j].id) && a in Ancestors(edges, depth, nodes[j].id)
  }

  ghost predicate CollapsibleByFirst(nodes: seq<Node>, edges: seq<Edge>, depth: NodeId -> nat, n: nat, a: NodeId)
    requires Layered(edges, depth) && n <= |nodes|
  {
    exists j :: 0 <= j < n && HasChildren(edges, nodes[j].id) && a in Ancestors(edges, depth, nodes[j].id)
  }

  /** One turn of the `hasCollapsibleDescendantsSet` loop: node `i` adds its
      ancestors exactly when it has children. */
  lemma CollapsibleStep(nodes: seq<Node>, edges: seq<Edge>, depth: NodeId -> nat, i: nat,
                        before: set<NodeId>, take: bool, after: set<NodeId>)
    requires Layered(edges, depth) && i < |nodes|
    requires forall a :: a in before <==> CollapsibleByFirst(nodes, edges, depth, i, a)
    requires take == HasChildren(edges, nodes[i].id)
    requires after == if take then before + Ancestors(edges, depth, nodes[i].id) else before
    ensures forall a :: a in after <==> CollapsibleByFirst(nodes, edges, depth, i + 1, a)
  {
    forall a
      ensures a in after <==> CollapsibleByFirst(nodes, edges, depth, i + 1, a)
    {
      if a in after && a !in before {
        assert CollapsibleByFirst(nodes, edges, depth, i + 1, a) by {
          assert 0 <= i < i + 1 && HasChildren(edges, nodes[i].id) && a in Ancestors(edges, depth, nodes[i].id);
        }
      }
      if CollapsibleByFirst(nodes, edges, depth, i + 1, a) && !CollapsibleByFirst(nodes, edges, depth, i, a) {
        var j :| 0 <= j < i + 1 && HasChildren(edges, nodes[j].id) && a in Ancestors(edges, depth, nodes[j].id);
        assert j == i;
      }
    }
  }

  /** The `hasCollapsibleDescendantsSet` loop. */
  method HasCollapsibleDescendants(nodes: seq<Node>, cm: map<NodeId, seq<NodeId>>, pm: map<NodeId, NodeId>,
                                   ghost edges: seq<Edge>, ghost depth: NodeId -> nat) returns (s: set<NodeId>)
    requires ChildrenTable(cm, edges) && ParentTable(pm, edges) && Layered(edges, depth)
    ensures forall a :: a in s <==> CollapsibleBelow(nodes, edges, depth, a)
  {
    s := {};
    var i := 0;
    while i < |nodes|
      invariant 0 <= i <= |nodes|
      invariant UpClosed(edges, s)
      invariant forall a :: a in s <==> CollapsibleByFirst(nodes, edges, depth, i, a)
    {
      var id := nodes[i].id;
      ghost var before := s;
      ChildrenLookup(cm, edges, id);
      var take := id in cm && |cm[id]| > 0;
      if take {
        s := MarkAncestors(pm, edges, depth, id, s);
      }
      CollapsibleStep(nodes, edges, depth, i, before, take, s);
      i := i + 1;
    }
  }

  /** A node flagged as having collapsible descendants really has a
      strict descendant with children of its own. */
  lemma CollapsibleHasParentBelow(nodes: seq<Node>, edges: seq<Edge>, depth: NodeId -> nat, a: NodeId)
    requires Layered(edges, depth) && CollapsibleBelow(nodes, edges, depth, a)
    ensures exists y :: Descendant(edges, a, y) && HasChildren(edges, y)
  {
    var j :| 0 <= j < |nodes| && HasChildren(edges, nodes[j].id) && a in Ancestors(edges, depth, nodes[j].id);
    AncestorIsAbove(edges, depth, nodes[j].id, a);
  }

  // ---------------------------------------------------------------------
  // "All descendants collapsed"

  /** `nodeById[id]`: the last node with this id, as later entries
      overwrite earlier ones. */
  function LastNode(nodes: seq<Node>, id: NodeId): (r: Option<Node>)
    ensures r.None? <==> !HasNode(nodes, id)
    ensures r.Some? ==> r.value.id == id && exists i :: 0 <= i < |nodes| && nodes[i] == r.value
                                                         && forall j :: i < j < |nodes| ==> nodes[j].id != id
  {
    if nodes == [] then None
    else
      var front := nodes[..|nodes| - 1];
      var last := nodes[|nodes| - 1];
      HasNodeSnoc(nodes);
      if last.id == id then Some(last)
      else
        var r := LastNode(front, id);
        if r.Some? then
          var i :| 0 <= i < |front| && front[i] == r.value && forall j :: i < j < |front| ==> front[j].id != id;
          assert nodes[i] == r.value;
          r
        else r
  }

  lemma HasNodeSnoc(nodes: seq<Node>)
    requires nodes != []
    ensures forall k :: HasNode(nodes, k) <==> HasNode(nodes[..|nodes| - 1], k) || nodes[|nodes| - 1].id == k
  {
    var front := nodes[..|nodes| - 1];
    forall k
      ensures HasNode(nodes, k) <==> HasNode(front, k) || nodes[|nodes| - 1].id == k
    {
      if HasNode(front, k) {
        var i :| 0 <= i < |front| && front[i].id == k;
        assert nodes[i].id == k;
      }
      if HasNode(nodes, k) && nodes[|nodes| - 1].id != k {
        var i :| 0 <= i < |nodes| && nodes[i].id == k;
        assert front[i].id == k;
      }
    }
  }

  /** `nb` is the `nodeById` table of `nodes`. */
  ghost predicate NodeTable(nb: map<NodeId, Node>, nodes: seq<Node>) {
    forall k :: (k in nb ==> LastNode(nodes, k) == Some(nb[k])) && (k !in nb ==> LastNode(nodes, k) == None)
  }

  /** The `nodeById` loop. */
  method BuildNodeById(nodes: seq<Node>) returns (nb: map<NodeId, Node>)
    ensures NodeTable(nb, nodes)
  {
    nb := map[];
    var i := 0;
    while i < |nodes|
      invariant 0 <= i <= |nodes|
      invariant NodeTable(nb, nodes[..i])
    {
      assert nodes[..i + 1][..i] == nodes[..i];
      nb := nb[nodes[i].id := nodes[i]];
      i := i + 1;
    }
    assert nodes[..i] == nodes;
  }

  /** `nodeById[id]?.data?.collapsed`: a missing node counts as expanded. */
  predicate CollapsedById(nodes: seq<Node>, id: NodeId) {
    var n := LastNode(nodes, id);
    n.Some? && n.value.attrs.collapsed
  }

  /** With unique ids, the lookup reads the one node that has the id. */
  lemma CollapsedByIdUnique(nodes: seq<Node>, i: nat)
    requires UniqueIds(nodes) && i < |nodes|
    ensures CollapsedById(nodes, nodes[i].id) <==> nodes[i].attrs.collapsed
  {
    var n := LastNode(nodes, nodes[i].id);
    assert HasNode(nodes, nodes[i].id);
    var k :| 0 <= k < |nodes| && nodes[k] == n.value && forall j :: k < j < |nodes| ==> nodes[j].id != nodes[i].id;
    assert k == i;
  }

  /** Every strict descendant of `a` that has children is collapsed. */
  ghost predicate AllCollapsedBelow(nodes: seq<Node>, edges: seq<Edge>, a: NodeId) {
    forall y :: Descendant(edges, a, y) && HasChildren(edges, y) ==> CollapsedById(nodes, y)
  }

  ghost function Targets(edges: seq<Edge>): set<NodeId> {
    set e | e in edges :: e.target
  }

  lemma DescendantThenChild(edges: seq<Edge>, a: NodeId, c: NodeId, k: NodeId)
    requires Descendant(edges, a, c) && Linked(edges, c, k)
    ensures Descendant(edges, a, k)
  {
    ChildIsDescendant(edges, c, k);
    DescendantTransitive(edges, a, c, k);
  }

  lemma {:induction false} WalkInside(edges: seq<Edge>, s: set<NodeId>, p: seq<NodeId>, n: nat)
    requires IsWalk(edges, p) && 1 <= n < |p|
    requires forall k :: Linked(edges, p[0], k) ==> k in s
    requires forall y, k :: y in s && Linked(edges, y, k) ==> k in s
    ensures p[n] in s
    decreases n
  {
    assert Linked(edges, p[n - 1], p[n]);
    if n > 1 {
      WalkInside(edges, s, p, n - 1);
    }
  }

  /** A set holding the children of `a` and closed under taking children
      holds every strict descendant of `a`. */
  lemma ClosedHoldsDescendants(edges: seq<Edge>, a: NodeId, s: set<NodeId>)
    requires forall k :: Linked(edges, a, k) ==> k in s
    requires forall y, k :: y in s && Linked(edges, y, k) ==> k in s
    ensures forall x :: Descendant(edges, a, x) ==> x in s
  {
    forall x | Descendant(edges, a, x)
      ensures x in s
    {
      var p :| 2 <= |p| && p[0] == a && p[|p| - 1] == x && IsWalk(edges, p);
      WalkInside(edges, s, p, |p| - 1);
    }
  }

  /** What the search below `id` knows at each turn: everything on the
      stack or visited is a strict descendant (and an edge target), every
      visited node with children is collapsed, and every child of `id` or of
      a visited node is visited or still on the stack. */
  ghost predicate SearchState(nodes: seq<Node>, edges: seq<Edge>, id: NodeId, stack: seq<NodeId>, visited: set<NodeId>) {
    (forall y :: y in stack ==> Descendant(edges, id, y) && y in Targets(edges))
    && (forall y :: y in visited ==> Descendant(edges, id, y) && y in Targets(edges))
    && (forall y :: y in visited && HasChildren(edges, y) ==> CollapsedById(nodes, y))
    && (forall k :: Linked(edges, id, k) ==> k in visited || k in stack)
    && (forall y, k :: y in visited && Linked(edges, y, k) ==> k in visited || k in stack)
  }

  lemma SearchStart(nodes: seq<Node>, edges: seq<Edge>, id: NodeId)
    ensures SearchState(nodes, edges, id, ChildrenOf(edges, id), {})
  {
    forall k | k in ChildrenOf(edges, id)
      ensures Descendant(edges, id, k) && k in Targets(edges)
    {
      ChildIsDescendant(edges, id, k);
      var e :| e in edges && e.source == id && e.target == k;
    }
  }

  lemma SearchSkip(nodes: seq<Node>, edges: seq<Edge>, id: NodeId, stack: seq<NodeId>, visited: set<NodeId>)
    requires SearchState(nodes, edges, id, stack, visited) && stack != [] && stack[|stack| - 1] in visited
    ensures SearchState(nodes, edges, id, stack[..|stack| - 1], visited)
  {
    assert forall y :: y in stack <==> y in stack[..|stack| - 1] || y == stack[|stack| - 1] by {
      assert stack == stack[..|stack| - 1] + [stack[|stack| - 1]];
    }
  }

  lemma SearchVisit(nodes: seq<Node>, edges: seq<Edge>, id: NodeId, stack: seq<NodeId>, visited: set<NodeId>)
    requires SearchState(nodes, edges, id, stack, visited) && stack != []
    requires HasChildren(edges, stack[|stack| - 1]) ==> CollapsedById(nodes, stack[|stack| - 1])
    ensures SearchState(nodes, edges, id, stack[..|stack| - 1] + ChildrenOf(edges, stack[|stack| - 1]),
                        visited + {stack[|stack| - 1]})
  {
    var curr := stack[|stack| - 1];
    var front := stack[..|stack| - 1];
    var kids := ChildrenOf(edges, curr);
    assert forall y :: y in stack <==> y in front || y == curr by {
      assert stack == front + [curr];
    }
    forall k | k in kids
      ensures Descendant(edges, id, k) && k in Targets(edges)
    {
      DescendantThenChild(edges, id, curr, k);
      var e :| e in edges && e.source == curr && e.target == k;
    }
  }

  lemma SearchDone(nodes: seq<Node>, edges: seq<Edge>, id: NodeId, visited: set<NodeId>)
    requires SearchState(nodes, edges, id, [], visited)
    ensures AllCollapsedBelow(nodes, edges, id)
  {
    ClosedHoldsDescendants(edges, id, visited);
  }

  /** The depth-first search inside `allDescendantsCollapsedSet` for one
      node: an explicit stack, a visited set, and an early exit at the first
      expanded descendant that has children. The visited set bounds it, so it
      ends on any edge list. */
  method DescendantsAllCollapsed(cm: map<NodeId, seq<NodeId>>, nb: map<NodeId, Node>, ghost nodes: seq<Node>,
                                 ghost edges: seq<Edge>, id: NodeId) returns (all: bool)
    requires ChildrenTable(cm, edges) && NodeTable(nb, nodes)
    ensures all <==> AllCollapsedBelow(nodes, edges, id)
  {
    all := true;
    var stack := if id in cm then cm[id] else [];
    assert stack == ChildrenOf(edges, id);
    var visited: set<NodeId> := {};
    SearchStart(nodes, edges, id);
    while |stack| > 0
      invariant all
      invariant SearchState(nodes, edges, id, stack, visited)
      decreases Targets(edges) - visited, |stack|
    {
      var curr := stack[|stack| - 1];
      assert curr in stack;
      if curr in visited {
        SearchSkip(nodes, edges, id, stack, visited);
        stack := stack[..|stack| - 1];
        continue;
      }
      var kids := if curr in cm then cm[curr] else [];
      assert kids == ChildrenOf(edges, curr);
      assert (curr in nb && nb[curr].attrs.collapsed) <==> CollapsedById(nodes, curr);
      if |kids| > 0 && !(curr in nb && nb[curr].attrs.collapsed) {
        assert Descendant(edges, id, curr);
        all := false;
        break;
      }
      SearchVisit(nodes, edges, id, stack, visited);
      visited := visited + {curr};
      stack := stack[..|stack| - 1] + kids;
    }
    if all {
      SearchDone(nodes, edges, id, visited);
    }
  }

  /** The `allDescendantsCollapsedSet` loop over the flagged nodes. */
  method AllDescendantsCollapsedSet(nodes: seq<Node>, cm: map<NodeId, seq<NodeId>>, nb: map<NodeId, Node>,
                                    collapsible: set<NodeId>, ghost edges: seq<Edge>) returns (r: set<NodeId>)
    requires ChildrenTable(cm, edges) && NodeTable(nb, nodes)
    ensures forall a :: a in r <==> HasNode(nodes, a) && a in collapsible && AllCollapsedBelow(nodes, edges, a)
  {
    r := {};
    var i := 0;
    while i < |nodes|
      invariant 0 <= i <= |nodes|
      invariant forall a :: a in r <==> HasNode(nodes[..i], a) && a in collapsible && AllCollapsedBelow(nodes, edges, a)
    {
      var id := nodes[i].id;
      assert nodes[..i + 1][..i] == nodes[..i];
      HasNodeSnoc(nodes[..i + 1]);
      if id in collapsible {
        var all := DescendantsAllCollapsed(cm, nb, nodes, edges, id);
        if all {
          r := r + {id};
        }
      }
      i := i + 1;
    }
    assert nodes[..i] == nodes;
  }

  // ---------------------------------------------------------------------
  // The decorated nodes

  /** The memoised lookups one render computes. */
  datatype Tables = Tables(
    parents: map<NodeId, NodeId>,
    children: map<NodeId, seq<NodeId>>,
    root: Option<NodeId>,
    colors: map<NodeId, string>,
    hidden: set<NodeId>,
    collapsible: set<NodeId>,
    allCollapsed: set<NodeId>)

  /** Each table is the one its definition above prescribes for the document. */
  ghost predicate ViewTables(nodes: seq<Node>, edges: seq<Edge>, depth: NodeId -> nat, t: Tables)
    requires Layered(edges, depth)
  {
    && ParentTable(t.parents, edges)
    && ChildrenTable(t.children, edges)
    && t.root == RootId(nodes)
    && t.colors == L1Colors(nodes, edges, t.root)
    && (forall x :: x in t.hidden <==> Hidden(nodes, edges, x))
    && (forall a :: a in t.collapsible <==> CollapsibleBelow(nodes, edges, depth, a))
    && (forall a :: a in t.allCollapsed <==> HasNode(nodes, a) && a in t.collapsible && AllCollapsedBelow(nodes, edges, a))
  }

  /** One render's worth of `useMemo` computations, in dependency order. */
  method BuildTables(nodes: seq<Node>, edges: seq<Edge>, ghost depth: NodeId -> nat) returns (t: Tables)
    requires Layered(edges, depth)
    ensures ViewTables(nodes, edges, depth, t)
  {
    var pm := BuildParentMap(edges);
    var root := RootId(nodes);
    var colors := BuildL1ColorMap(nodes, pm, edges, root);
    var cm := BuildChildrenMap(edges);
    var hidden := HiddenNodeIds(nodes, cm, edges, depth);
    var nb := BuildNodeById(nodes);
    var collapsible := HasCollapsibleDescendants(nodes, cm, pm, edges, depth);
    var allCollapsed := AllDescendantsCollapsedSet(nodes, cm, nb, collapsible, edges);
    t := Tables(pm, cm, root, colors, hidden, collapsible, allCollapsed);
  }

  /** The characters `String.prototype.trim` removes: white space and line
      terminators. */
  predicate IsJsSpace(c: char) {
    c == ' ' || c == '\t' || c == '\n' || c == '\r' || c == '\U{000B}' || c == '\U{000C}'
    || c == '\U{00A0}' || c == '\U{FEFF}' || c == '\U{1680}' || ('\U{2000}' <= c <= '\U{200A}')
    || c == '\U{2028}' || c == '\U{2029}' || c == '\U{202F}' || c == '\U{205F}' || c == '\U{3000}'
  }

  /** `s.trim() === ''`. */
  predicate Blank(s: string) {
    forall i :: 0 <= i < |s| ==> IsJsSpace(s[i])
  }

  datatype ShownNode = ShownNode(
    node: Node,
    hidden: bool,
    l1Color: string,
    hasChildren: bool,
    hasCollapsibleDescendants: bool,
    allDescendantsCollapsed: bool,
    hasNotes: bool,
    hasOverview: bool)

  /** The border colour: slate for a level-0 node, otherwise the colour of
      its branch, falling back to the first palette entry. */
  function NodeColor(edges: seq<Edge>, ghost depth: NodeId -> nat, t: Tables, n: Node): string
    requires Layered(edges, depth)
  {
    if n.attrs.level == 0 then RootBorder
    else
      match L1Of(edges, depth, t.root, n.id)
      case Some(a) => if a in t.colors then t.colors[a] else L1Palette[0]
      case None => L1Palette[0]
  }

  function ShowNode(edges: seq<Edge>, ghost depth: NodeId -> nat, t: Tables, n: Node): ShownNode
    requires Layered(edges, depth)
  {
    ShownNode(
      n,
      n.id in t.hidden,
      NodeColor(edges, depth, t, n),
      n.id in t.children && |t.children[n.id]| > 0,
      n.id in t.collapsible,
      n.id in t.allCollapsed,
      n.content != "" && n.content != "<p></p>",
      !Blank(n.attrs.overview))
  }

  /** What `nodesWithColor` shows for one node `n` of the document: the node
      itself, hidden exactly when a collapsed node lies above it, the child
      and collapse flags the tables give it, the root border at level 0, and
      the notes and overview badges. */
  ghost predicate ShownAs(nodes: seq<Node>, edges: seq<Edge>, depth: NodeId -> nat, n: Node, s: ShownNode)
    requires Layered(edges, depth)
  {
    && s.node == n
    && (s.hidden <==> Hidden(nodes, edges, n.id))
    && (s.hasChildren <==> HasChildren(edges, n.id))
    && (s.hasCollapsibleDescendants <==> CollapsibleBelow(nodes, edges, depth, n.id))
    && (s.allDescendantsCollapsed <==> CollapsibleBelow(nodes, edges, depth, n.id) && AllCollapsedBelow(nodes, edges, n.id))
    && (s.allDescendantsCollapsed ==> s.hasCollapsibleDescendants)
    && (n.attrs.level == 0 ==> s.l1Color == RootBorder)
    && (s.hasNotes <==> n.content != "" && n.content != "<p></p>")
    && (s.hasOverview <==> !Blank(n.attrs.overview))
  }

  lemma ShowNodeShown(nodes: seq<Node>, edges: seq<Edge>, depth: NodeId -> nat, t: Tables, i: nat)
    requires Layered(edges, depth) && ViewTables(nodes, edges, depth, t) && i < |nodes|
    ensures ShownAs(nodes, edges, depth, nodes[i], ShowNode(edges, depth, t, nodes[i]))
  {
    assert HasNode(nodes, nodes[i].id);
    ChildrenLookup(t.children, edges, nodes[i].id);
  }

  /** `nodesWithColor`: every node, in order, with the display flags the
      tables give it. */
  function NodesWithColor(nodes: seq<Node>, edges: seq<Edge>, ghost depth: NodeId -> nat, t: Tables): (r: seq<ShownNode>)
    requires Layered(edges, depth) && ViewTables(nodes, edges, depth, t)
    ensures |r| == |nodes|
    ensures forall i :: 0 <= i < |nodes| ==> ShownAs(nodes, edges, depth, nodes[i], r[i])
  {
    var r := seq(|nodes|, i requires 0 <= i < |nodes| => ShowNode(edges, depth, t, nodes[i]));
    assert forall i :: 0 <= i < |nodes| ==> ShownAs(nodes, edges, depth, nodes[i], r[i]) by {
      forall i | 0 <= i < |nodes|
        ensures ShownAs(nodes, edges, depth, nodes[i], r[i])
      {
        ShowNodeShown(nodes, edges, depth, t, i);
      }
    }
    r
  }

  /** A node below level 0 is painted with the colour of the branch head on
      its parent chain, when that head is a node of the document. */
  lemma BranchNodeColor(nodes: seq<Node>, edges: seq<Edge>, depth: NodeId -> nat, t: Tables, i: nat, a: NodeId)
    requires Layered(edges, depth) && ViewTables(nodes, edges, depth, t) && i < |nodes|
    requires nodes[i].attrs.level != 0
    requires IsBranchHead(edges, t.root, a) && a in {nodes[i].id} + Ancestors(edges, depth, nodes[i].id) && HasNode(nodes, a)
    ensures a in t.colors && NodesWithColor(nodes, edges, depth, t)[i].l1Color == t.colors[a]
  {
    BranchHeadColor(nodes, edges, depth, t, nodes[i], a);
    assert NodesWithColor(nodes, edges, depth, t)[i] == ShowNode(edges, depth, t, nodes[i]);
  }

  /** `BranchNodeColor` for one node, given only the colour table. */
  lemma BranchHeadColor(nodes: seq<Node>, edges: seq<Edge>, depth: NodeId -> nat, t: Tables, n: Node, a: NodeId)
    requires Layered(edges, depth) && t.colors == L1Colors(nodes, edges, t.root)
    requires n.attrs.level != 0
    requires IsBranchHead(edges, t.root, a) && a in {n.id} + Ancestors(edges, depth, n.id) && HasNode(nodes, a)
    ensures a in t.colors && NodeColor(edges, depth, t, n) == t.colors[a]
  {
    L1OfIsBranchAncestor(edges, depth, t.root, n.id, a);
    ColorTableMeaning(BranchHeads(nodes, edges, t.root));
  }

  /** A node below level 0 with no branch head on its parent chain (no
      root, or a chain that never reaches it) falls back to the first
      palette colour. */
  lemma UnbranchedNodeColor(nodes: seq<Node>, edges: seq<Edge>, depth: NodeId -> nat, t: Tables, i: nat)
    requires Layered(edges, depth) && ViewTables(nodes, edges, depth, t) && i < |nodes|
    requires nodes[i].attrs.level != 0
    requires forall a :: a in {nodes[i].id} + Ancestors(edges, depth, nodes[i].id) ==> !IsBranchHead(edges, t.root, a)
    ensures NodesWithColor(nodes, edges, depth, t)[i].l1Color == L1Palette[0]
  {
    var l := L1Of(edges, depth, t.root, nodes[i].id);
    if l.Some? {
      L1OfIsBranchAncestor(edges, depth, t.root, nodes[i].id, l.value);
    }
    assert NodesWithColor(nodes, edges, depth, t)[i] == ShowNode(edges, depth, t, nodes[i]);
  }
}
