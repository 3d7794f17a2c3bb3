/** How a document is split for storage and put back together. The map
    record holds the structure (every node without its rich-text `content`,
    and the edges); the per-node content table holds `title`, `content` and
    `overview` for every node that is not a submap pointer. Loading merges
    `content` and `overview` back by node id. */
module Persistence {
  import opened Types
  import opened Lists

  /** A node as stored in the map record: its `data` without `content`. */
  datatype StoredNode = StoredNode(id: NodeId, position: Position, selected: bool, attrs: Attrs)

  /** The JSON `data` of a map record. */
  datatype MapPayload = MapPayload(nodes: seq<StoredNode>, edges: seq<Edge>)

  /** One row of the content table. */
  datatype ContentRow = ContentRow(id: NodeId, mapId: MapId, title: string, content: string, overview: string)

  function Strip(n: Node): StoredNode {
    StoredNode(n.id, n.position, n.selected, n.attrs)
  }

  /** Stripping forgets exactly the content. */
  lemma StripForgetsOnlyContent(a: Node, b: Node)
    ensures Strip(a) == Strip(b) <==> a == b.(content := a.content)
  {
  }

  /** The structural payload `saveMap` writes: every node stripped of its
      content, in order, and the edges unchanged. */
  function StructuralPayload(nodes: seq<Node>, edges: seq<Edge>): (p: MapPayload)
    ensures |p.nodes| == |nodes| && p.edges == edges
    ensures forall i :: 0 <= i < |nodes| ==> p.nodes[i] == Strip(nodes[i])
  {
    MapPayload(seq(|nodes|, i requires 0 <= i < |nodes| => Strip(nodes[i])), edges)
  }

  function RowOf(n: Node, mapId: MapId): ContentRow {
    ContentRow(n.id, mapId, n.attrs.title, n.content, n.attrs.overview)
  }

  /** The content rows `saveMap` upserts: one per node that is not a submap
      pointer (a pointer's content lives in its own map), in node order. */
  function ContentRows(nodes: seq<Node>, mapId: MapId): (rows: seq<ContentRow>)
    ensures forall r :: r in rows <==> exists n :: n in nodes && !n.attrs.isSubmap && r == RowOf(n, mapId)
  {
    var kept := Filter(nodes, (n: Node) => !n.attrs.isSubmap);
    var rows := seq(|kept|, i requires 0 <= i < |kept| => RowOf(kept[i], mapId));
    assert forall r :: r in rows ==> exists n :: n in nodes && !n.attrs.isSubmap && r == RowOf(n, mapId) by {
      forall r | r in rows
        ensures exists n :: n in nodes && !n.attrs.isSubmap && r == RowOf(n, mapId)
      {
        var i :| 0 <= i < |rows| && rows[i] == r;
        assert kept[i] in kept;
      }
    }
    assert forall n :: n in nodes && !n.attrs.isSubmap ==> RowOf(n, mapId) in rows by {
      forall n | n in nodes && !n.attrs.isSubmap
        ensures RowOf(n, mapId) in rows
      {
        assert n in kept;
        var i :| 0 <= i < |kept| && kept[i] == n;
        assert rows[i] == RowOf(n, mapId);
      }
    }
    rows
  }

  /** `rows[j]` is the last row with this id. */
  ghost predicate LastRowAt(rows: seq<ContentRow>, id: NodeId, j: int) {
    0 <= j < |rows| && rows[j].id == id && forall l :: j < l < |rows| ==> rows[l].id != id
  }

  /** `contentById`: each loaded row under its node id, later rows
      overwriting earlier ones. */
  function ContentIndex(rows: seq<ContentRow>): (m: map<NodeId, ContentRow>)
    ensures forall k :: k in m <==> exists r :: r in rows && r.id == k
    ensures forall k :: k in m ==> m[k] in rows && m[k].id == k
    ensures forall k :: k in m ==> exists j :: LastRowAt(rows, k, j) && m[k] == rows[j]
  {
    if rows == [] then map[]
    else
      var front := rows[..|rows| - 1];
      var last := rows[|rows| - 1];
      assert rows == front + [last];
      var m := ContentIndex(front)[last.id := last];
      assert LastRowAt(rows, last.id, |rows| - 1);
      forall k | k in m && k != last.id
        ensures exists j :: LastRowAt(rows, k, j) && m[k] == rows[j]
      {
        var j :| LastRowAt(front, k, j) && ContentIndex(front)[k] == front[j];
        assert LastRowAt(rows, k, j);
      }
      m
  }

  /** One node of the loaded document: the stored node with `content` and
      `overview` taken from its row, or empty when it has none. */
  function Restore(s: StoredNode, index: map<NodeId, ContentRow>): Node {
    var content := if s.id in index then index[s.id].content else "";
    var overview := if s.id in index then index[s.id].overview else "";
    Node(s.id, s.position, s.selected, s.attrs.(overview := overview), content)
  }

  /** The node list `loadMap` installs. */
  function MergeContent(stored: seq<StoredNode>, rows: seq<ContentRow>): (nodes: seq<Node>)
    ensures |nodes| == |stored|
    ensures forall i :: 0 <= i < |stored| ==> nodes[i].id == stored[i].id && Strip(nodes[i]).position == stored[i].position
    ensures forall i :: 0 <= i < |stored| ==>
              Strip(nodes[i]).(attrs := stored[i].attrs) == stored[i]
              && nodes[i].attrs.(overview := stored[i].attrs.overview) == stored[i].attrs
    ensures forall i :: 0 <= i < |stored| && (exists r :: r in rows && r.id == stored[i].id) ==>
              exists j :: LastRowAt(rows, stored[i].id, j)
                          && nodes[i].content == rows[j].content && nodes[i].attrs.overview == rows[j].overview
    ensures forall i :: 0 <= i < |stored| && (forall r :: r in rows ==> r.id != stored[i].id) ==>
              nodes[i].content == "" && nodes[i].attrs.overview == ""
  {
    var index := ContentIndex(rows);
    seq(|stored|, i requires 0 <= i < |stored| => Restore(stored[i], index))
  }

  /** Saving and loading back, with the content table answering with what
      was saved, restores every node that is not a submap pointer exactly;
      a pointer comes back with empty content and overview, since its row
      belongs to the submap. */
  lemma SaveLoadRoundTrip(nodes: seq<Node>, edges: seq<Edge>, mapId: MapId)
    requires UniqueIds(nodes)
    ensures var loaded := MergeContent(StructuralPayload(nodes, edges).nodes, ContentRows(nodes, mapId));
            |loaded| == |nodes|
            && (forall i :: 0 <= i < |nodes| && !nodes[i].attrs.isSubmap ==> loaded[i] == nodes[i])
            && (forall i :: 0 <= i < |nodes| && nodes[i].attrs.isSubmap ==>
                  loaded[i] == nodes[i].(content := "", attrs := nodes[i].attrs.(overview := "")))
  {
    var rows := ContentRows(nodes, mapId);
    var index := ContentIndex(rows);
    var stored := StructuralPayload(nodes, edges).nodes;
    var loaded := MergeContent(stored, rows);
    forall i | 0 <= i < |nodes|
      ensures !nodes[i].attrs.isSubmap ==> loaded[i] == nodes[i]
      ensures nodes[i].attrs.isSubmap ==> loaded[i] == nodes[i].(content := "", attrs := nodes[i].attrs.(overview := ""))
    {
      var n := nodes[i];
      assert loaded[i] == Restore(Strip(n), index);
      if !n.attrs.isSubmap {
        assert RowOf(n, mapId) in rows;
        var r := index[n.id];
        var m :| m in nodes && !m.attrs.isSubmap && r == RowOf(m, mapId);
        var j :| 0 <= j < |nodes| && nodes[j] == m;
        assert j == i;
      } else {
        assert n.id !in index;
      }
    }
  }
}
