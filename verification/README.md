# FlowBuilder graph-editing core, in Dafny

The Chatbot-flow editor lets a user place "message" nodes on a canvas, connect
them with directed edges, edit the label of the selected node, and save the
flow. Around the rendering, the `FlowBuilder` component holds a small state
machine. It has a module-level id counter, a list of nodes, a list of edges and
an optional selected node. Its handlers are the following:

- `getId` hands out `node_<k>` and advances the counter.
- `handleAddMessageNode` appends a message node.
- `onConnect` adds an edge unless its source already has an outgoing edge.
- `onNodeClick` and `onPaneClick` set and clear the selection.
- `updateNodeLabel` rewrites the selected node's label.
- `handleSave` refuses a flow with more than one node and more than one "open"
  node, that is, a node that is the source of no edge.

The project has three modules:

- `FlowGraph` (`flow_graph.dfy`) holds the values: `Node`, `Edge`, positions
  and labels. It also holds the pure helpers: `SourceHasEdge` (the
  `edges.some` check), `Relabel` (the `nds.map` rewrite) and the invariant that
  each node has at most one outgoing edge.
- `SaveValidation` (`save_validation.dfy`) holds the save rule. `OpenIds` and
  `SaveRejected` specify it. `OpenNodes` is the loop-based computation of
  `handleSave`, proved against `OpenIds`. Lemmas cover chains, branches,
  dangling edges and the effect of a connection.
- `FlowEditor` (`flow_editor.dfy`) holds two classes. `IdCounter` is the
  module-level counter. `FlowBuilder` owns `nodes`, `edges` and `selected`, and
  its methods are the handlers. Its `Valid()` invariant says three things:
  node ids are pairwise distinct, every id is below the counter, and no node
  has two outgoing edges. Every handler preserves it.

A node id `node_<k>` is represented by the counter value `k`. The JavaScript
field `data.label` is called `data.text`, because `label` is a Dafny keyword.

Four details of `src/components/FlowBuilder.jsx` shape the model:

- The x offset of a new node is `100 + 50 * id`, where `id` is read after
  `getId` has incremented it (lines 50 and 52).
- `updateNodeLabel` dereferences `selectedNode` (line 78) and is only reachable
  from the text area, which is rendered only while a node is selected (lines
  127-141). The model therefore requires a selection.
- The selection is a copy of the clicked node (line 72). Nothing clears it when
  that node disappears, so the model does not tie `selected` to the node list.
- `handleSave` counts the open entries of a `Map` keyed by node id, so it
  counts distinct ids, while its node-count test uses `nodes.length` (lines
  87-95). The model keeps both.

## Model

| member | source | states |
|---|---|---|
| `FlowEditor.IdCounter.constructor` | src/components/FlowBuilder.jsx:17 | the counter starts at 0 |
| `FlowEditor.IdCounter.GetId` | src/components/FlowBuilder.jsx:17-18 | returns the counter's current value and advances it by one, so successive calls give 0, 1, 2, ... and never repeat |
| `FlowEditor.FlowBuilder.constructor` | src/components/FlowBuilder.jsx:33-35 | the editor starts with no nodes, no edges and no selection, and satisfies the invariant (unique ids below the counter, at most one outgoing edge per node) |
| `FlowEditor.FlowBuilder.AddMessageNode` | src/components/FlowBuilder.jsx:48-59 | appends exactly one node after the unchanged earlier ones: id equal to the counter before the call, type message, label "Test message", position (100 + 50 * counter after the call, 100). The new id differs from every earlier node's id. Edges and selection are unchanged and the invariant is kept |
| `FlowGraph.SourceHasEdge` | src/components/FlowBuilder.jsx:64 | the front-to-back scan is true exactly when some edge in the list has the given source |
| `FlowGraph.ConnectKeepsAtMostOne` | src/components/FlowBuilder.jsx:64-66 | for an edge list with at most one outgoing edge per node, appending an edge keeps that property if and only if no existing edge has the same source |
| `FlowEditor.FlowBuilder.OnConnect` | src/components/FlowBuilder.jsx:62-69 | if some edge already leaves the proposed source, the edge list is left exactly as it was. Otherwise the edge (source, target) is appended. Nodes and selection are unchanged, and the at-most-one-outgoing-edge invariant holds afterwards |
| `FlowEditor.FlowBuilder.OnNodeClick` | src/components/FlowBuilder.jsx:71-73 | the selection becomes the clicked node; nodes and edges are unchanged and the invariant is kept |
| `FlowEditor.FlowBuilder.OnPaneClick` | src/components/FlowBuilder.jsx:116 | the selection is cleared; nodes and edges are unchanged and the invariant is kept |
| `FlowGraph.Relabel` | src/components/FlowBuilder.jsx:76-82 | the result has the same length and order. Each node keeps its id, type and position. A node's label becomes the new text exactly when its id is the selected id. Every other node is returned unchanged |
| `FlowEditor.FlowBuilder.UpdateNodeLabel` | src/components/FlowBuilder.jsx:75-84 | with a node selected, the node list becomes the relabelled list for the selected id. The selection's label becomes the new text, edges are unchanged and the invariant is kept |
| `SaveValidation.OpenNodes` | src/components/FlowBuilder.jsx:87-93 | the map-building and filter loops return each id of a node that is the source of no edge exactly once, and nothing else; edges whose source is not a node play no part |
| `SaveValidation.DistinctCardinality` | src/components/FlowBuilder.jsx:93-95 | a list of ids without repetition has as many entries as distinct ids, so `openNodes.length` is the number of distinct open ids |
| `FlowEditor.FlowBuilder.Save` | src/components/FlowBuilder.jsx:86-104 | refuses exactly when there is more than one node and more than one distinct open id. Nodes and edges are never changed. The selection is kept on refusal and cleared on acceptance |
| `SaveValidation.AtMostOneNodeAccepted` | src/components/FlowBuilder.jsx:95 | an empty graph or a single-node graph is accepted, whatever the edges |
| `SaveValidation.ChainAccepted` | src/components/FlowBuilder.jsx:86-98 | for the nodes linked in list order by one edge each, at most the last node is open, and the flow is accepted |
| `SaveValidation.ThreeChainAccepted` | src/components/FlowBuilder.jsx:86-98 | the flow A -> B -> C is accepted |
| `SaveValidation.TwoBranchesRejected` | src/components/FlowBuilder.jsx:86-98 | three nodes with distinct ids and the single edge A -> B leave both B and C open, so save is refused |
| `SaveValidation.DanglingEdgeIgnored` | src/components/FlowBuilder.jsx:89-91 | an edge whose source is not the id of any node does not change the set of open ids |
| `SaveValidation.ConnectClosesSource` | src/components/FlowBuilder.jsx:89-91 | appending an edge removes exactly its source from the open ids and leaves the others as they were |

## Left out

- Rendering: the `MessageNode` component, `nodeTypes`, the `ReactFlow` canvas with its background, controls and minimap, and the side-panel markup. These are presentation only.
- `onNodesChange` and `onEdgesChange` hand change batches to the diagram library's `applyNodeChanges` and `applyEdgeChanges`. That library's diff protocol is not part of this model, so node dragging and deletion are not modelled either.
- The deferred `fitView` call after a node is added is a view side effect and does not change graph state.
- `alert` and `console.log` in `handleSave` are I/O. `Save` returns the accept/refuse outcome instead.
- The library's `addEdge` is modelled as a plain append of `(source, target)`. Its edge-id generation and handle fields are not modelled. Its duplicate-edge check cannot fire once no edge leaves the source.
- The string formatting `node_<k>` of ids is not modelled. The id is the counter value `k`, and the formatting is injective in `k`.
- Node positions are mathematical integers. The source's JavaScript numbers are exact only up to 2^53, and no counter value in a session comes near that.
- React's batching of state setters is not modelled. The model applies each handler's updates at once, in the order the handler issues them.
