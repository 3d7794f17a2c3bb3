/** The data model shared by the store and the canvas: nodes, edges and the
    small value types they are made of. */
module Types {

  datatype Option<+T> = None | Some(value: T)

  /** Node ids are uuids or 'root-xxxxxxxx' strings and map ids are database
      uuids: neither is ever empty, so a table lookup that finds an id is
      always truthy. */
  type NodeId = s: string | s != "" witness "root"
  type MapId = s: string | s != "" witness "map"

  /** Logical canvas coordinates. */
  datatype Position = Position(x: int, y: int)

  /** The `nodeType` a node may carry in its data; a node without one is
      displayed as a folder. */
  datatype NodeKind = Folder | Group | Note | Pointer

  /** Everything in a node's `data` record except `content`, which is kept
      beside it because the save path strips it out. */
  datatype Attrs = Attrs(
    title: string,
    level: nat,
    overview: string,
    collapsed: bool,
    kind: Option<NodeKind>,
    isSubmap: bool,
    submapId: Option<MapId>)

  datatype Node = Node(id: NodeId, position: Position, selected: bool, attrs: Attrs, content: string)

  /** Edges carry no kind: every edge, including one drawn by hand, is a
      parent-to-child link for every computation of the editor. */
  datatype Edge = Edge(id: string, source: NodeId, target: NodeId)

  /** No two nodes share an id. */
  ghost predicate UniqueIds(nodes: seq<Node>) {
    forall i, j :: 0 <= i < j < |nodes| ==> nodes[i].id != nodes[j].id
  }

  /** Some node has this id. */
  predicate HasNode(nodes: seq<Node>, id: NodeId) {
    exists i :: 0 <= i < |nodes| && nodes[i].id == id
  }

  /** `nodes.find(n => n.id === id)`: the first node with this id. */
  function FindNode(nodes: seq<Node>, id: NodeId): (r: Option<Node>)
    ensures r.None? <==> !HasNode(nodes, id)
    ensures r.Some? ==> exists i :: 0 <= i < |nodes| && nodes[i] == r.value && r.value.id == id
                                    && forall j :: 0 <= j < i ==> nodes[j].id != id
  {
    if nodes == [] then None
    else if nodes[0].id == id then Some(nodes[0])
    else
      var r := FindNode(nodes[1..], id);
      assert HasNode(nodes, id) <==> HasNode(nodes[1..], id) by {
        if HasNode(nodes, id) {
          var i :| 0 <= i < |nodes| && nodes[i].id == id;
          assert nodes[1..][i - 1].id == id;
        }
        if HasNode(nodes[1..], id) {
          var i :| 0 <= i < |nodes[1..]| && nodes[1..][i].id == id;
          assert nodes[i + 1].id == id;
        }
      }
      if r.Some? then
        var i :| 0 <= i < |nodes[1..]| && nodes[1..][i] == r.value && r.value.id == id
                 && forall j :: 0 <= j < i ==> nodes[1..][j].id != id;
        assert nodes[i + 1] == r.value;
        assert forall j :: 0 <= j < i + 1 ==> nodes[j].id != id by {
          forall j | 0 <= j < i + 1 ensures nodes[j].id != id {
            if j > 0 { assert nodes[j] == nodes[1..][j - 1]; }
          }
        }
        r
      else r
  }
}
