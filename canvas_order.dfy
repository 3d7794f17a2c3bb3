/** The order in which the canvas lists the branch heads: the order of the
    nodes, which decides which palette colour each branch gets. */
module CanvasOrder {
  import opened Types
  import opened Lists
  import opened Hierarchy
  import opened Canvas

  /** The branch heads are listed in node order. */
  lemma {:induction false} BranchHeadsInNodeOrder(nodes: seq<Node>, edges: seq<Edge>, root: Option<NodeId>)
    ensures Subsequence(BranchHeads(nodes, edges, root), NodeIds(nodes))
  {
    if nodes != [] {
      var front := nodes[..|nodes| - 1];
      var last := nodes[|nodes| - 1];
      BranchHeadsInNodeOrder(front, edges, root);
      assert NodeIds(nodes) == NodeIds(front) + [last.id];
      SubsequenceSnoc(BranchHeads(front, edges, root), NodeIds(front), last.id);
      if !IsBranchHead(edges, root, last.id) {
        assert BranchHeads(nodes, edges, root) == BranchHeads(front, edges, root);
      }
    }
  }
}
