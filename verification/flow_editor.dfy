/** The editing state of the FlowBuilder component and its event handlers:
    the module-level id counter, the node list, the edge list and the node
    copy held as the current selection. */
module FlowEditor {
  import opened FlowGraph
  import opened SaveValidation

  /** The module-level counter `id` read and advanced by `getId`. */
  class IdCounter {
    var next: nat

    constructor ()
      ensures next == 0
    {
      next := 0;
    }

    /** `node_${id++}`: hands out the current value and advances the counter,
        so successive calls return 0, 1, 2, ... */
    method GetId() returns (k: NodeId)
      modifies this
      ensures k == old(next) && next == k + 1
    {
      k := next;
      next := next + 1;
    }
  }

  class FlowBuilder {
    const ids: IdCounter
    var nodes: seq<Node>
    var edges: seq<Edge>
    var selected: Option<Node>

    /** Node ids are pairwise distinct and all below the counter, and no node
        has two outgoing edges. */
    ghost predicate Valid()
      reads this, ids
    {
      && UniqueIds(nodes)
      && (forall i :: 0 <= i < |nodes| ==> nodes[i].id < ids.next)
      && AtMostOneOutgoing(edges)
    }

    /** The component's initial state: no nodes, no edges, nothing selected. */
    constructor (ids: IdCounter)
      ensures this.ids == ids && Valid()
      ensures nodes == [] && edges == [] && selected == None
    {
      this.ids := ids;
      nodes, edges, selected := [], [], None;
    }

    /** handleAddMessageNode: appends one message node with a fresh id, the
        default label and an x offset taken from the advanced counter. */
    method AddMessageNode()
      requires Valid()
      modifies this, ids
      ensures Valid()
      ensures ids.next == old(ids.next) + 1
      ensures nodes == old(nodes) + [MessageNode(old(ids.next))]
      ensures nodes[|nodes| - 1].kind == Message && nodes[|nodes| - 1].data.text == "Test message"
      ensures nodes[|nodes| - 1].position == Position(100 + ids.next * 50, 100)
      ensures forall i :: 0 <= i < |old(nodes)| ==> nodes[|nodes| - 1].id != nodes[i].id
      ensures edges == old(edges) && selected == old(selected)
    {
      var k := ids.GetId();
      var n := Node(k, Message, Position(100 + ids.next * 50, 100), NodeData(DefaultLabel));
      nodes := nodes + [n];
    }

    /** onConnect: a proposed edge from a node that already has an outgoing
        edge is dropped silently; otherwise it is appended. */
    method OnConnect(source: NodeId, target: NodeId)
      requires Valid()
      modifies this
      ensures Valid()
      ensures old(SourceHasEdge(edges, source)) ==> edges == old(edges)
      ensures !old(SourceHasEdge(edges, source)) ==> edges == old(edges) + [Edge(source, target)]
      ensures nodes == old(nodes) && selected == old(selected)
    {
      var sourceHasEdge := SourceHasEdge(edges, source);
      if sourceHasEdge {
        return;
      }
      ConnectKeepsAtMostOne(edges, Edge(source, target));
      edges := edges + [Edge(source, target)];
    }

    /** onNodeClick: the selection becomes (a copy of) the clicked node. */
    method OnNodeClick(node: Node)
      requires Valid()
      modifies this
      ensures Valid()
      ensures selected == Some(node)
      ensures nodes == old(nodes) && edges == old(edges)
    {
      selected := Some(node);
    }

    /** onPaneClick: a click on the empty canvas clears the selection. */
    method OnPaneClick()
      requires Valid()
      modifies this
      ensures Valid()
      ensures selected == None
      ensures nodes == old(nodes) && edges == old(edges)
    {
      selected := None;
    }

    /** updateNodeLabel: only reachable from the settings panel, which is only
        shown while a node is selected. Rewrites the label of the nodes with
        the selected id and mirrors it into the selection. */
    method UpdateNodeLabel(text: string)
      requires Valid() && selected.Some?
      modifies this
      ensures Valid()
      ensures nodes == Relabel(old(nodes), old(selected).value.id, text)
      ensures selected == Some(WithLabel(old(selected).value, text))
      ensures edges == old(edges)
    {
      nodes := Relabel(nodes, selected.value.id, text);
      selected := Some(WithLabel(selected.value, text));
    }

    /** handleSave: refused when there is more than one node and more than one
        open node, leaving everything as it was; accepted otherwise, which
        clears the selection. */
    method Save() returns (accepted: bool)
      requires Valid()
      modifies this
      ensures Valid()
      ensures accepted <==> !SaveRejected(nodes, edges)
      ensures nodes == old(nodes) && edges == old(edges)
      ensures selected == if accepted then None else old(selected)
    {
      var openNodes := OpenNodes(nodes, edges);
      DistinctCardinality(openNodes);
      assert Elements(openNodes) == OpenIds(nodes, edges);
      if |nodes| > 1 && |openNodes| > 1 {
        return false;
      }
      accepted := true;
      selected := None;
    }
  }
}
