/** Values of the flow graph that FlowBuilder edits (nodes, edges, an optional
    value), and the pure helpers its event handlers are built from. */
module FlowGraph {

  datatype Option<+T> = None | Some(value: T)

  /** A node identifier `node_<k>` is represented by its counter value `k`;
      the prefix-plus-decimal formatting is injective in `k`. */
  type NodeId = nat

  datatype Position = Position(x: int, y: int)

  /** The one entry of `nodeTypes`. */
  datatype NodeType = Message

  /** `data`; its `label` field is called `text` here, `label` being a Dafny keyword. */
  datatype NodeData = NodeData(text: string)

  datatype Node = Node(id: NodeId, kind: NodeType, position: Position, data: NodeData)

  /** A directed connection `source -> target`. */
  datatype Edge = Edge(source: NodeId, target: NodeId)

  const DefaultLabel: string := "Test message"

  /** The node created by the "Message" button when getId returned `k`:
      the position is read from the counter after it was incremented. */
  function MessageNode(k: NodeId): Node {
    Node(k, Message, Position(100 + (k + 1) * 50, 100), NodeData(DefaultLabel))
  }

  /** `edges.some(e => e.source === source)`, scanning from the front. */
  function SourceHasEdge(edges: seq<Edge>, source: NodeId): (r: bool)
    ensures r <==> exists i :: 0 <= i < |edges| && edges[i].source == source
  {
    if edges == [] then false
    else if edges[0].source == source then true
    else
      var rest := SourceHasEdge(edges[1..], source);
      assert forall i :: 1 <= i < |edges| ==> edges[i] == edges[1..][i - 1];
      rest
  }

  /** No node is the source of more than one edge. */
  ghost predicate AtMostOneOutgoing(edges: seq<Edge>) {
    forall i, j :: 0 <= i < j < |edges| ==> edges[i].source != edges[j].source
  }

  /** No two nodes share an identifier. */
  ghost predicate UniqueIds(nodes: seq<Node>) {
    forall i, j :: 0 <= i < j < |nodes| ==> nodes[i].id != nodes[j].id
  }

  /** Appending a proposed edge keeps the single-outgoing-edge invariant
      exactly when no existing edge leaves the same source. */
  lemma ConnectKeepsAtMostOne(edges: seq<Edge>, e: Edge)
    requires AtMostOneOutgoing(edges)
    ensures AtMostOneOutgoing(edges + [e]) <==> !SourceHasEdge(edges, e.source)
  {
    var r := edges + [e];
    if SourceHasEdge(edges, e.source) {
      var i :| 0 <= i < |edges| && edges[i].source == e.source;
      assert r[i].source == r[|edges|].source;
    } else {
      forall i, j | 0 <= i < j < |r| ensures r[i].source != r[j].source {
        if j == |edges| {
          assert r[i] == edges[i];
        } else {
          assert r[i] == edges[i] && r[j] == edges[j];
        }
      }
    }
  }

  /** The copy `{ ...n, data: { ...n.data, label: text } }`. */
  function WithLabel(n: Node, text: string): Node {
    n.(data := n.data.(text := text))
  }

  /** `nds.map(...)` of updateNodeLabel: rewrite the label of every node whose
      id is `selectedId` to `text`, keep every other node as it is. */
  function Relabel(nodes: seq<Node>, selectedId: NodeId, text: string): (r: seq<Node>)
    ensures |r| == |nodes|
    ensures forall i :: 0 <= i < |nodes| ==>
      r[i].id == nodes[i].id && r[i].kind == nodes[i].kind && r[i].position == nodes[i].position
    ensures forall i :: 0 <= i < |nodes| ==>
      r[i].data.text == if nodes[i].id == selectedId then text else nodes[i].data.text
    ensures forall i :: 0 <= i < |nodes| && nodes[i].id != selectedId ==> r[i] == nodes[i]
  {
    if nodes == [] then []
    else
      var head := if nodes[0].id == selectedId then WithLabel(nodes[0], text) else nodes[0];
      [head] + Relabel(nodes[1..], selectedId, text)
  }
}
