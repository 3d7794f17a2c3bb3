/** The lookup tables both the store and the canvas derive from the edge
    list (`parentMap`, `childrenMap`), the descendant relation they walk, and
    the recursive `collect` walk itself.

    The walks in the source keep no visited set, so they only terminate on an
    acyclic edge list. That is stated here as `Layered(edges, depth)`: some
    depth assignment makes every edge go strictly deeper. */
module Hierarchy {
  import opened Types
  import opened Lists

  /** There is an edge from `a` to `b`. */
  ghost predicate Linked(edges: seq<Edge>, a: NodeId, b: NodeId) {
    exists e :: e in edges && e.source == a && e.target == b
  }

  /** `childrenMap[a]?.length` is non-zero. */
  ghost predicate HasChildren(edges: seq<Edge>, a: NodeId) {
    exists e :: e in edges && e.source == a
  }

  /** The target of every edge, in edge order. */
  function EdgeTargets(edges: seq<Edge>): seq<NodeId> {
    seq(|edges|, i requires 0 <= i < |edges| => edges[i].target)
  }

  /** `childrenMap[a] || []`: the targets of the edges leaving `a`, in edge order. */
  function ChildrenOf(edges: seq<Edge>, a: NodeId): (kids: seq<NodeId>)
    ensures forall k :: k in kids <==> Linked(edges, a, k)
    ensures kids == [] <==> !HasChildren(edges, a)
  {
    if edges == [] then []
    else
      var last := edges[|edges| - 1];
      var front := edges[..|edges| - 1];
      assert edges == front + [last];
      assert forall e :: e in edges <==> e in front || e == last;
      ChildrenOf(front, a) + (if last.source == a then [last.target] else [])
  }

  /** The children are listed in the order of their edges. */
  lemma {:induction false} ChildrenInEdgeOrder(edges: seq<Edge>, a: NodeId)
    ensures Subsequence(ChildrenOf(edges, a), EdgeTargets(edges))
  {
    if edges != [] {
      var last := edges[|edges| - 1];
      var front := edges[..|edges| - 1];
      ChildrenInEdgeOrder(front, a);
      assert EdgeTargets(edges) == EdgeTargets(front) + [last.target];
      SubsequenceSnoc(ChildrenOf(front, a), EdgeTargets(front), last.target);
      if last.source != a {
        assert ChildrenOf(edges, a) == ChildrenOf(front, a);
      }
    }
  }

  /** `parentMap[x]`: the source of the LAST edge into `x` (later edges
      overwrite earlier ones), or None when no edge ends at `x`. */
  function ParentOf(edges: seq<Edge>, x: NodeId): (p: Option<NodeId>)
    ensures p.None? <==> forall e :: e in edges ==> e.target != x
    ensures p.Some? ==> exists j :: 0 <= j < |edges| && edges[j].target == x && edges[j].source == p.value
                                    && forall k :: j < k < |edges| ==> edges[k].target != x
  {
    if edges == [] then None
    else
      var last := edges[|edges| - 1];
      var front := edges[..|edges| - 1];
      assert edges == front + [last];
      assert forall e :: e in edges <==> e in front || e == last;
      if last.target == x then Some(last.source) else ParentOf(front, x)
  }

  lemma ParentIsLinked(edges: seq<Edge>, x: NodeId)
    requires ParentOf(edges, x).Some?
    ensures Linked(edges, ParentOf(edges, x).value, x)
  {
    var j :| 0 <= j < |edges| && edges[j].target == x && edges[j].source == ParentOf(edges, x).value;
    assert edges[j] in edges;
  }

  /** `cm` is the `childrenMap` of `edges`: a key for every node with an
      outgoing edge, holding its children in edge order. */
  ghost predicate ChildrenTable(cm: map<NodeId, seq<NodeId>>, edges: seq<Edge>) {
    forall k :: (k in cm ==> cm[k] == ChildrenOf(edges, k)) && (k !in cm ==> ChildrenOf(edges, k) == [])
  }

  /** `pm` is the `parentMap` of `edges`. */
  ghost predicate ParentTable(pm: map<NodeId, NodeId>, edges: seq<Edge>) {
    forall k :: (k in pm ==> ParentOf(edges, k) == Some(pm[k])) && (k !in pm ==> ParentOf(edges, k) == None)
  }

  /** The `childrenMap` loop: one `push` per edge, in edge order. */
  method BuildChildrenMap(edges: seq<Edge>) returns (cm: map<NodeId, seq<NodeId>>)
    ensures ChildrenTable(cm, edges)
  {
    cm := map[];
    var i := 0;
    while i < |edges|
      invariant 0 <= i <= |edges|
      invariant ChildrenTable(cm, edges[..i])
    {
      var e := edges[i];
      assert edges[..i + 1][..i] == edges[..i];
      if e.source !in cm {
        cm := cm[e.source := [e.target]];
      } else {
        cm := cm[e.source := cm[e.source] + [e.target]];
      }
      i := i + 1;
    }
    assert edges[..i] == edges;
  }

  /** The `parentMap` loop: `map[e.target] = e.source` for every edge in turn. */
  method BuildParentMap(edges: seq<Edge>) returns (pm: map<NodeId, NodeId>)
    ensures ParentTable(pm, edges)
  {
    pm := map[];
    var i := 0;
    while i < |edges|
      invariant 0 <= i <= |edges|
      invariant ParentTable(pm, edges[..i])
    {
      var e := edges[i];
      assert edges[..i + 1][..i] == edges[..i];
      pm := pm[e.target := e.source];
      i := i + 1;
    }
    assert edges[..i] == edges;
  }

  // ---------------------------------------------------------------------
  // Descendants

  /** Consecutive elements of `p` are joined by edges. */
  ghost predicate IsWalk(edges: seq<Edge>, p: seq<NodeId>) {
    forall i :: 0 <= i < |p| - 1 ==> Linked(edges, p[i], p[i + 1])
  }

  /** `b` is a strict descendant of `a`: a walk of one or more edges leads
      from `a` to `b`. */
  ghost predicate Descendant(edges: seq<Edge>, a: NodeId, b: NodeId) {
    exists p :: 2 <= |p| && p[0] == a && p[|p| - 1] == b && IsWalk(edges, p)
  }

  lemma ChildIsDescendant(edges: seq<Edge>, a: NodeId, b: NodeId)
    requires Linked(edges, a, b)
    ensures Descendant(edges, a, b)
  {
    var p := [a, b];
    assert IsWalk(edges, p);
  }

  lemma DescendantThroughChild(edges: seq<Edge>, a: NodeId, c: NodeId, b: NodeId)
    requires Linked(edges, a, c) && Descendant(edges, c, b)
    ensures Descendant(edges, a, b)
  {
    var p :| 2 <= |p| && p[0] == c && p[|p| - 1] == b && IsWalk(edges, p);
    var q := [a] + p;
    forall i | 0 <= i < |q| - 1
      ensures Linked(edges, q[i], q[i + 1])
    {
      if i > 0 {
        assert q[i] == p[i - 1] && q[i + 1] == p[i];
      }
    }
    assert IsWalk(edges, q);
  }

  lemma DescendantFirstStep(edges: seq<Edge>, a: NodeId, b: NodeId)
    requires Descendant(edges, a, b)
    ensures exists c :: Linked(edges, a, c) && (c == b || Descendant(edges, c, b))
  {
    var p :| 2 <= |p| && p[0] == a && p[|p| - 1] == b && IsWalk(edges, p);
    assert Linked(edges, p[0], p[1]);
    if |p| > 2 {
      var q := p[1..];
      forall i | 0 <= i < |q| - 1
        ensures Linked(edges, q[i], q[i + 1])
      {
        assert q[i] == p[i + 1] && q[i + 1] == p[i + 2];
      }
      assert IsWalk(edges, q);
      assert Descendant(edges, p[1], b);
    }
  }

  /** The recursive definition the `collect` walks follow: the strict
      descendants of `a` are its children and their strict descendants. */
  lemma {:induction false} DescendantByChildren(edges: seq<Edge>, a: NodeId, x: NodeId)
    ensures Descendant(edges, a, x) <==> exists k :: Linked(edges, a, k) && (x == k || Descendant(edges, k, x))
  {
    if Descendant(edges, a, x) {
      DescendantFirstStep(edges, a, x);
    }
    if exists k :: Linked(edges, a, k) && (x == k || Descendant(edges, k, x)) {
      var k :| Linked(edges, a, k) && (x == k || Descendant(edges, k, x));
      if x == k {
        ChildIsDescendant(edges, a, x);
      } else {
        DescendantThroughChild(edges, a, k, x);
      }
    }
  }

  lemma DescendantTransitive(edges: seq<Edge>, a: NodeId, b: NodeId, c: NodeId)
    requires Descendant(edges, a, b) && Descendant(edges, b, c)
    ensures Descendant(edges, a, c)
  {
    var p :| 2 <= |p| && p[0] == a && p[|p| - 1] == b && IsWalk(edges, p);
    var q :| 2 <= |q| && q[0] == b && q[|q| - 1] == c && IsWalk(edges, q);
    var w := p + q[1..];
    forall i | 0 <= i < |w| - 1
      ensures Linked(edges, w[i], w[i + 1])
    {
      if i < |p| - 1 {
        assert w[i] == p[i] && w[i + 1] == p[i + 1];
      } else {
        assert w[i] == q[i - |p| + 1] && w[i + 1] == q[i - |p| + 2];
      }
    }
    assert IsWalk(edges, w);
  }

  /** A strict descendant is the target of some edge. */
  lemma DescendantIsTarget(edges: seq<Edge>, a: NodeId, b: NodeId)
    requires Descendant(edges, a, b)
    ensures exists e :: e in edges && e.target == b
  {
    var p :| 2 <= |p| && p[0] == a && p[|p| - 1] == b && IsWalk(edges, p);
    assert Linked(edges, p[|p| - 2], p[|p| - 1]);
  }

  // ---------------------------------------------------------------------
  // Acyclicity

  /** Every edge leads strictly deeper, so the edge list has no cycle. */
  ghost predicate Layered(edges: seq<Edge>, depth: NodeId -> nat) {
    forall e :: e in edges ==> depth(e.source) < depth(e.target)
  }

  lemma LinkedDeeper(edges: seq<Edge>, depth: NodeId -> nat, a: NodeId, b: NodeId)
    requires Layered(edges, depth) && Linked(edges, a, b)
    ensures depth(a) < depth(b)
  {
  }

  lemma {:induction false} WalkDeeper(edges: seq<Edge>, depth: NodeId -> nat, p: seq<NodeId>)
    requires Layered(edges, depth) && IsWalk(edges, p) && 2 <= |p|
    ensures depth(p[0]) < depth(p[|p| - 1])
    decreases |p|
  {
    LinkedDeeper(edges, depth, p[0], p[1]);
    if |p| > 2 {
      var q := p[1..];
      forall i | 0 <= i < |q| - 1
        ensures Linked(edges, q[i], q[i + 1])
      {
        assert q[i] == p[i + 1] && q[i + 1] == p[i + 2];
      }
      WalkDeeper(edges, depth, q);
    }
  }

  lemma DescendantDeeper(edges: seq<Edge>, depth: NodeId -> nat, a: NodeId, b: NodeId)
    requires Layered(edges, depth) && Descendant(edges, a, b)
    ensures depth(a) < depth(b)
  {
    var p :| 2 <= |p| && p[0] == a && p[|p| - 1] == b && IsWalk(edges, p);
    WalkDeeper(edges, depth, p);
  }

  /** Without cycles no node is its own strict descendant. */
  lemma NotOwnDescendant(edges: seq<Edge>, depth: NodeId -> nat, a: NodeId)
    requires Layered(edges, depth)
    ensures !Descendant(edges, a, a)
  {
    if Descendant(edges, a, a) {
      DescendantDeeper(edges, depth, a, a);
    }
  }

  /** One more than the deepest edge target. */
  ghost function DepthBound(edges: seq<Edge>, depth: NodeId -> nat): (b: nat)
    ensures forall e :: e in edges ==> depth(e.target) < b
  {
    if edges == [] then 0
    else
      var rest := DepthBound(edges[1..], depth);
      assert forall e :: e in edges ==> e == edges[0] || e in edges[1..];
      if depth(edges[0].target) < rest then rest else depth(edges[0].target) + 1
  }

  /** How far below `id` a downward walk can still go. */
  ghost function Height(edges: seq<Edge>, depth: NodeId -> nat, id: NodeId): nat {
    var b := DepthBound(edges, depth);
    if depth(id) < b then b - depth(id) else 0
  }

  /** `x` is a child `k` itself or one of its strict descendants, and passes
      the walk's filter. */
  ghost predicate Reached(edges: seq<Edge>, k: NodeId, x: NodeId, onlyParents: bool) {
    (x == k || Descendant(edges, k, x)) && (!onlyParents || HasChildren(edges, x))
  }

  /** `x` is reached from one of the first `n` children in `kids`. */
  ghost predicate ReachedFromFirst(edges: seq<Edge>, kids: seq<NodeId>, n: nat, x: NodeId, onlyParents: bool)
    requires n <= |kids|
  {
    exists j :: 0 <= j < n && Reached(edges, kids[j], x, onlyParents)
  }

  lemma ReachedFromOneMore(edges: seq<Edge>, kids: seq<NodeId>, n: nat, x: NodeId, onlyParents: bool)
    requires n < |kids|
    ensures ReachedFromFirst(edges, kids, n + 1, x, onlyParents)
            <==> ReachedFromFirst(edges, kids, n, x, onlyParents) || Reached(edges, kids[n], x, onlyParents)
  {
  }

  lemma ReachedFromAllChildren(edges: seq<Edge>, id: NodeId, onlyParents: bool)
    ensures forall x :: ReachedFromFirst(edges, ChildrenOf(edges, id), |ChildrenOf(edges, id)|, x, onlyParents)
                        <==> Descendant(edges, id, x) && (!onlyParents || HasChildren(edges, x))
  {
    var kids := ChildrenOf(edges, id);
    forall x
      ensures ReachedFromFirst(edges, kids, |kids|, x, onlyParents)
              <==> Descendant(edges, id, x) && (!onlyParents || HasChildren(edges, x))
    {
      DescendantByChildren(edges, id, x);
      if Descendant(edges, id, x) && (!onlyParents || HasChildren(edges, x)) {
        var k :| Linked(edges, id, k) && (x == k || Descendant(edges, k, x));
        var j :| 0 <= j < |kids| && kids[j] == k;
        assert Reached(edges, kids[j], x, onlyParents);
      }
      if ReachedFromFirst(edges, kids, |kids|, x, onlyParents) {
        var j :| 0 <= j < |kids| && Reached(edges, kids[j], x, onlyParents);
        assert Linked(edges, id, kids[j]);
      }
    }
  }

  /** A child of `id` lies deeper than `id` and above the depth bound, so
      recursing into it makes progress. */
  lemma ChildHeightSmaller(edges: seq<Edge>, depth: NodeId -> nat, id: NodeId, kid: NodeId)
    requires Layered(edges, depth) && Linked(edges, id, kid)
    ensures Height(edges, depth, kid) < Height(edges, depth, id)
  {
    var e :| e in edges && e.source == id && e.target == kid;
    assert depth(kid) < DepthBound(edges, depth);
  }

  /** A lookup in the `childrenMap`: the children in edge order, and a
      non-empty list exactly for a node with children. */
  lemma ChildrenLookup(cm: map<NodeId, seq<NodeId>>, edges: seq<Edge>, k: NodeId)
    requires ChildrenTable(cm, edges)
    ensures (if k in cm then cm[k] else []) == ChildrenOf(edges, k)
    ensures (k in cm && |cm[k]| > 0) <==> HasChildren(edges, k)
  {
  }

  /** One turn of the `collect` loop: adding `kids[i]` (when it qualifies)
      and everything collected below it extends the set from the first `i`
      children to the first `i + 1`. */
  lemma CollectStep(edges: seq<Edge>, kids: seq<NodeId>, i: nat, acc: set<NodeId>, before: set<NodeId>,
                    take: bool, mid: set<NodeId>, after: set<NodeId>, onlyParents: bool)
    requires i < |kids|
    requires forall x :: x in before <==> x in acc || ReachedFromFirst(edges, kids, i, x, onlyParents)
    requires take == (!onlyParents || HasChildren(edges, kids[i]))
    requires mid == if take then before + {kids[i]} else before
    requires forall x :: x in after <==> x in mid || (Descendant(edges, kids[i], x) && (!onlyParents || HasChildren(edges, x)))
    ensures forall x :: x in after <==> x in acc || ReachedFromFirst(edges, kids, i + 1, x, onlyParents)
  {
    forall x
      ensures x in after <==> x in acc || ReachedFromFirst(edges, kids, i + 1, x, onlyParents)
    {
      ReachedFromOneMore(edges, kids, i, x, onlyParents);
    }
  }

  /** The recursive `collect(id)` of the source: for each child `kid` of
      `id` in `childrenMap` order, add `kid` to the accumulated set (only when
      `kid` has children of its own if `onlyParents`, as in
      `setDescendantsCollapsed`) and recurse into `kid`. */
  method CollectDescendants(cm: map<NodeId, seq<NodeId>>, ghost edges: seq<Edge>, ghost depth: NodeId -> nat,
                            id: NodeId, acc: set<NodeId>, onlyParents: bool) returns (r: set<NodeId>)
    requires ChildrenTable(cm, edges) && Layered(edges, depth)
    ensures forall x :: x in r <==> x in acc || (Descendant(edges, id, x) && (!onlyParents || HasChildren(edges, x)))
    decreases Height(edges, depth, id)
  {
    var kids := if id in cm then cm[id] else [];
    ChildrenLookup(cm, edges, id);
    r := acc;
    var i := 0;
    while i < |kids|
      invariant 0 <= i <= |kids|
      invariant forall x :: x in r <==> x in acc || ReachedFromFirst(edges, kids, i, x, onlyParents)
    {
      var kid := kids[i];
      assert Linked(edges, id, kid);
      ChildHeightSmaller(edges, depth, id, kid);
      ChildrenLookup(cm, edges, kid);
      ghost var before := r;
      var take := !onlyParents || (kid in cm && |cm[kid]| > 0);
      if take {
        r := r + {kid};
      }
      ghost var mid := r;
      r := CollectDescendants(cm, edges, depth, kid, r, onlyParents);
      CollectStep(edges, kids, i, acc, before, take, mid, r, onlyParents);
      i := i + 1;
    }
    ReachedFromAllChildren(edges, id, onlyParents);
  }
}
