/** The check handleSave runs before a flow is saved: a graph with more than
    one node may have at most one "open" node, one that is the source of no
    edge (the terminal node of a linear flow). */
module SaveValidation {
  import opened FlowGraph

  predicate Distinct(s: seq<NodeId>) {
    forall i, j :: 0 <= i < j < |s| ==> s[i] != s[j]
  }

  /** The distinct ids of nodes that no edge leaves. */
  ghost function OpenIds(nodes: seq<Node>, edges: seq<Edge>): set<NodeId> {
    set i | 0 <= i < |nodes| && !SourceHasEdge(edges, nodes[i].id) :: nodes[i].id
  }

  /** Save is refused when there is more than one node and more than one open id. */
  ghost predicate SaveRejected(nodes: seq<Node>, edges: seq<Edge>) {
    |nodes| > 1 && |OpenIds(nodes, edges)| > 1
  }

  /** The open-node list of handleSave: a map from node id to 0, set to 1 for
      every id that is the source of an edge (edges from unknown ids are
      skipped), then the ids still at 0. */
  method OpenNodes(nodes: seq<Node>, edges: seq<Edge>) returns (open: seq<NodeId>)
    ensures Distinct(open)
    ensures forall k :: k in open <==> k in OpenIds(nodes, edges)
  {
    // A JavaScript Map: the key/value pairs and the order keys were first set in.
    var nodeMap: map<NodeId, int> := map[];
    var order: seq<NodeId> := [];
    for i := 0 to |nodes|
      invariant nodeMap.Keys == set t | 0 <= t < i :: nodes[t].id
      invariant forall k :: k in nodeMap ==> nodeMap[k] == 0
      invariant Distinct(order)
      invariant forall k :: k in order <==> k in nodeMap
    {
      if nodes[i].id !in nodeMap {
        order := order + [nodes[i].id];
      }
      nodeMap := nodeMap[nodes[i].id := 0];
    }
    for j := 0 to |edges|
      invariant nodeMap.Keys == set t | 0 <= t < |nodes| :: nodes[t].id
      invariant forall k :: k in nodeMap ==> nodeMap[k] == if SourceHasEdge(edges[..j], k) then 1 else 0
    {
      if edges[j].source in nodeMap {
        nodeMap := nodeMap[edges[j].source := 1];
      }
      assert forall k :: SourceHasEdge(edges[..j + 1], k) <==> SourceHasEdge(edges[..j], k) || edges[j].source == k by {
        assert forall t :: 0 <= t < j ==> edges[..j + 1][t] == edges[..j][t];
      }
    }
    assert edges[..|edges|] == edges;
    open := [];
    for t := 0 to |order|
      invariant Distinct(open)
      invariant forall k :: k in open <==> k in order[..t] && k in nodeMap && nodeMap[k] == 0
    {
      assert order[..t + 1] == order[..t] + [order[t]];
      if nodeMap[order[t]] == 0 {
        open := open + [order[t]];
      }
    }
    assert order[..|order|] == order;
  }

  /** The set of entries of a list of ids. */
  ghost function Elements(s: seq<NodeId>): set<NodeId> {
    set k | k in s
  }

  /** A list without repetitions has as many distinct elements as entries. */
  lemma {:induction false} DistinctCardinality(s: seq<NodeId>)
    requires Distinct(s)
    ensures |Elements(s)| == |s|
  {
    if s != [] {
      var rest := Elements(s[1..]);
      DistinctCardinality(s[1..]);
      assert Elements(s) == rest + {s[0]} by {
        assert forall k :: k in s <==> k == s[0] || k in s[1..];
      }
      assert s[0] !in rest by {
        assert forall t :: 0 <= t < |s[1..]| ==> s[1..][t] == s[t + 1];
      }
    }
  }

  /** An empty graph or a single node is always accepted, whatever the edges. */
  lemma AtMostOneNodeAccepted(nodes: seq<Node>, edges: seq<Edge>)
    requires |nodes| <= 1
    ensures !SaveRejected(nodes, edges)
  {
  }

  /** The edges of a linear flow through `nodes` in list order. */
  function ChainEdges(nodes: seq<Node>): (r: seq<Edge>)
    ensures |r| == if nodes == [] then 0 else |nodes| - 1
    ensures forall i :: 0 <= i < |r| ==> r[i] == Edge(nodes[i].id, nodes[i + 1].id)
  {
    if |nodes| <= 1 then []
    else [Edge(nodes[0].id, nodes[1].id)] + ChainEdges(nodes[1..])
  }

  /** A linear chain of any length is accepted: every node but the last one
      has an outgoing edge. */
  lemma {:induction false} ChainAccepted(nodes: seq<Node>)
    ensures OpenIds(nodes, ChainEdges(nodes)) <= if nodes == [] then {} else {nodes[|nodes| - 1].id}
    ensures !SaveRejected(nodes, ChainEdges(nodes))
  {
    var edges := ChainEdges(nodes);
    var open := OpenIds(nodes, edges);
    if nodes != [] {
      var last := nodes[|nodes| - 1].id;
      forall i | 0 <= i < |nodes| - 1 ensures SourceHasEdge(edges, nodes[i].id) {
        assert i < |edges|;
        assert edges[i] == Edge(nodes[i].id, nodes[i + 1].id);
      }
      assert forall k :: k in open ==> k == last;
      if last in open {
        assert open == {last};
      } else {
        assert open == {};
      }
    }
  }

  /** The three-node flow A -> B -> C is accepted. */
  lemma ThreeChainAccepted(a: Node, b: Node, c: Node)
    ensures !SaveRejected([a, b, c], [Edge(a.id, b.id), Edge(b.id, c.id)])
  {
    ChainAccepted([a, b, c]);
    assert ChainEdges([a, b, c]) == [Edge(a.id, b.id), Edge(b.id, c.id)];
  }

  /** With nodes A, B, C and only A -> B, both B and C are open: refused. */
  lemma TwoBranchesRejected(a: Node, b: Node, c: Node)
    requires a.id != b.id && b.id != c.id && a.id != c.id
    ensures SaveRejected([a, b, c], [Edge(a.id, b.id)])
  {
    var nodes, edges := [a, b, c], [Edge(a.id, b.id)];
    assert !SourceHasEdge(edges, b.id) && !SourceHasEdge(edges, c.id);
    assert nodes[1].id == b.id && nodes[2].id == c.id;
    assert SourceHasEdge(edges, a.id);
    assert OpenIds(nodes, edges) == {b.id, c.id};
  }

  /** An edge whose source is not a node does not change the open ids. */
  lemma DanglingEdgeIgnored(nodes: seq<Node>, edges: seq<Edge>, e: Edge)
    requires forall i :: 0 <= i < |nodes| ==> nodes[i].id != e.source
    ensures OpenIds(nodes, edges + [e]) == OpenIds(nodes, edges)
  {
    ConnectClosesSource(nodes, edges, e);
    assert e.source !in OpenIds(nodes, edges);
  }

  /** Connecting `source` closes it and leaves every other node as open as before. */
  lemma ConnectClosesSource(nodes: seq<Node>, edges: seq<Edge>, e: Edge)
    ensures OpenIds(nodes, edges + [e]) == OpenIds(nodes, edges) - {e.source}
  {
    var r := edges + [e];
    assert r[|edges|].source == e.source;
    forall k | k != e.source ensures SourceHasEdge(r, k) == SourceHasEdge(edges, k) {
      if SourceHasEdge(r, k) {
        var i :| 0 <= i < |r| && r[i].source == k;
        assert r[i] == edges[i];
      }
      if SourceHasEdge(edges, k) {
        var i :| 0 <= i < |edges| && edges[i].source == k;
        assert r[i] == edges[i];
      }
    }
  }
}
