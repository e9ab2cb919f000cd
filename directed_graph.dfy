/** The directed graph visualizer: nodes are only ever appended, a
    connection is drawn from the node whose handle was clicked to the node
    clicked next, and after every change of the connections the cycle
    search recomputes the flagged connections. Dragging a node and panning
    the canvas are arbitrated by two flags. */
module DirectedGraph {
  import opened Common
  import opened Strings
  import opened Viewport
  import opened CycleDetection

  /** A node `{ id, label, position }`; `position` is the point in graph
      coordinates that the pointer event was converted to. */
  datatype GraphNode = GraphNode(id: NodeId, text: string, position: Point)

  function Ids(ns: seq<GraphNode>): (ids: seq<NodeId>)
    ensures |ids| == |ns| && forall k :: 0 <= k < |ns| ==> ids[k] == ns[k].id
  {
    seq(|ns|, k requires 0 <= k < |ns| => ns[k].id)
  }

  /** The node at index `k` is `node-(k+1)` labelled `k+1`. */
  ghost predicate Numbered(ns: seq<GraphNode>) {
    forall k :: 0 <= k < |ns| ==> ns[k].id == NodeId(k + 1) && ns[k].text == NatToString(k + 1)
  }

  /** The connection at index `k` is `conn-(k+1)`. */
  ghost predicate ConnsNumbered(conns: seq<Conn>) {
    forall k :: 0 <= k < |conns| ==> conns[k].id == ConnId(k + 1)
  }

  ghost predicate NoSelfLoops(conns: seq<Conn>) {
    forall c :: c in conns ==> c.from != c.to
  }

  ghost predicate Between(conns: seq<Conn>, ids: seq<NodeId>) {
    forall c :: c in conns ==> c.from in ids && c.to in ids
  }

  // ---------------------------------------------------------------------
  // The list rebuilds

  /** `addNode(x, y)`: `node-(n+1)` labelled `n+1` at the given point,
      after the existing nodes. */
  function AddNode(ns: seq<GraphNode>, x: real, y: real): (r: seq<GraphNode>)
    ensures |r| == |ns| + 1 && r[..|ns|] == ns && r[|ns|].position == Point(x, y)
    ensures Numbered(ns) ==> Numbered(r) && r[|ns|].id !in Ids(ns)
  {
    ns + [GraphNode(NodeId(|ns| + 1), NatToString(|ns| + 1), Point(x, y))]
  }

  lemma AddNodeIds(ns: seq<GraphNode>, x: real, y: real)
    ensures Ids(AddNode(ns, x, y)) == Ids(ns) + [NodeId(|ns| + 1)]
  {
  }

  /** `completeConnection(toNodeId)` on the connections: a connection
      `conn-(m+1)` is appended when a source is set and differs from the
      target, whether or not the same pair is already connected. */
  function Connect(conns: seq<Conn>, from: Option<NodeId>, to: NodeId): (r: seq<Conn>)
    ensures from.Some? && from.value != to ==>
              |r| == |conns| + 1 && r[..|conns|] == conns && r[|conns|] == Conn(ConnId(|conns| + 1), from.value, to)
    ensures from.None? || from.value == to ==> r == conns
  {
    if from.Some? && from.value != to then conns + [Conn(ConnId(|conns| + 1), from.value, to)] else conns
  }

  /** Numbered nodes and connections, no self-loop, and connections only
      between shown nodes. */
  ghost predicate GraphShape(nodes: seq<GraphNode>, conns: seq<Conn>) {
    Numbered(nodes) && ConnsNumbered(conns) && NoSelfLoops(conns) && Between(conns, Ids(nodes))
  }

  /** Connecting keeps the connections numbered, free of self-loops and
      between existing nodes. */
  lemma ConnectKeepsShape(nodes: seq<GraphNode>, conns: seq<Conn>, from: Option<NodeId>, to: NodeId)
    requires GraphShape(nodes, conns)
    requires from.Some? ==> from.value in Ids(nodes)
    requires to in Ids(nodes)
    ensures GraphShape(nodes, Connect(conns, from, to))
  {
  }

  /** The same pair may be connected twice: the second connection is a
      new one with the next id. */
  lemma DuplicateConnectionAccepted()
    ensures Connect([Conn(ConnId(1), NodeId(1), NodeId(2))], Some(NodeId(1)), NodeId(2))
            == [Conn(ConnId(1), NodeId(1), NodeId(2)), Conn(ConnId(2), NodeId(1), NodeId(2))]
  {
  }

  /** `handleNodeDrag` on the nodes: every node with the dragged id moves to
      the point; ids, labels and the other nodes stay. */
  function MoveNode(ns: seq<GraphNode>, id: NodeId, p: Point): (r: seq<GraphNode>)
    ensures |r| == |ns|
    ensures forall k :: 0 <= k < |ns| ==> r[k].id == ns[k].id && r[k].text == ns[k].text
    ensures forall k :: 0 <= k < |ns| && ns[k].id == id ==> r[k].position == p
    ensures forall k :: 0 <= k < |ns| && ns[k].id != id ==> r[k] == ns[k]
  {
    seq(|ns|, k requires 0 <= k < |ns| => if ns[k].id == id then ns[k].(position := p) else ns[k])
  }

  lemma MoveNodeKeepsIds(ns: seq<GraphNode>, id: NodeId, p: Point)
    ensures Ids(MoveNode(ns, id, p)) == Ids(ns)
    ensures Numbered(ns) ==> Numbered(MoveNode(ns, id, p))
  {
  }

  // ---------------------------------------------------------------------
  // The component state

  class DirectedGraphVisualizer {
    var nodes: seq<GraphNode>
    var connections: seq<Conn>
    var isGraphCreated: bool
    var offset: Point
    var isDraggingCanvas: bool
    var isDraggingNode: bool
    var draggedNode: Option<NodeId>
    var dragStart: Point
    var isConnecting: bool
    var connectingFrom: Option<NodeId>
    var cycles: set<ConnId>

    function Current(): Graph
      reads this
    {
      Graph(Ids(nodes), connections)
    }

    /** What every handler keeps: numbered nodes and connections, no
        self-loop, connections between shown nodes, flags equal to a fresh
        search, and the connect and drag flags in step with their targets. */
    ghost predicate Valid()
      reads this
    {
      GraphShape(nodes, connections)
      && cycles == Cycles(Current())
      && (!isGraphCreated ==> nodes == [] && connections == [])
      && (isConnecting <==> connectingFrom.Some?)
      && (connectingFrom.Some? ==> connectingFrom.value in Ids(nodes))
      && (isDraggingNode <==> draggedNode.Some?)
    }

    /** The state before the graph is created; the mount-time search over
        no connections flags nothing. */
    constructor ()
      ensures Valid() && !isGraphCreated && nodes == [] && connections == [] && cycles == {}
      ensures !isDraggingCanvas && !isDraggingNode && !isConnecting
      ensures offset == Point(0.0, 0.0) && dragStart == Point(0.0, 0.0)
    {
      nodes := [];
      connections := [];
      isGraphCreated := false;
      offset := Point(0.0, 0.0);
      isDraggingCanvas := false;
      isDraggingNode := false;
      draggedNode := None;
      dragStart := Point(0.0, 0.0);
      isConnecting := false;
      connectingFrom := None;
      cycles := {};
      new;
      NoConnsNoCycles(Graph([], []));
    }

    /** `detectCycles`, run by the effect after the connections change. */
    method DetectCycles()
      modifies this
      ensures cycles == Cycles(Current())
      ensures nodes == old(nodes) && connections == old(connections) && isGraphCreated == old(isGraphCreated)
      ensures offset == old(offset) && dragStart == old(dragStart)
      ensures isDraggingCanvas == old(isDraggingCanvas) && isDraggingNode == old(isDraggingNode) && draggedNode == old(draggedNode)
      ensures isConnecting == old(isConnecting) && connectingFrom == old(connectingFrom)
    {
      var search := new CycleSearch(Current());
      search.Run();
      cycles := search.newCycles;
    }

    /** `handleCreateGraph`: one node `node-1` labelled `1`, 30 up and left
        of the middle of the window. */
    method HandleCreateGraph(windowWidth: real, windowHeight: real)
      requires Valid() && !isGraphCreated
      modifies this
      ensures Valid() && isGraphCreated
      ensures nodes == [GraphNode(NodeId(1), "1", Point(windowWidth / 2.0 - 30.0, windowHeight / 2.0 - 30.0))]
      ensures connections == old(connections) && cycles == old(cycles)
      ensures isConnecting == old(isConnecting) && isDraggingNode == old(isDraggingNode)
      ensures isDraggingCanvas == old(isDraggingCanvas) && offset == old(offset)
      ensures draggedNode == old(draggedNode) && dragStart == old(dragStart) && connectingFrom == old(connectingFrom)
    {
      isGraphCreated := true;
      nodes := [GraphNode(NodeId(1), "1", Point(windowWidth / 2.0 - 30.0, windowHeight / 2.0 - 30.0))];
      assert NatToString(1) == "1";
      NoConnsNoCycles(Current());
    }

    /** A double click on the canvas at graph point `(x, y)`. The flags need
        no new search: the new node has no connection. */
    method HandleAddNode(x: real, y: real)
      requires Valid() && isGraphCreated
      modifies this
      ensures Valid()
      ensures nodes == AddNode(old(nodes), x, y)
      ensures connections == old(connections) && cycles == old(cycles)
      ensures isConnecting == old(isConnecting) && connectingFrom == old(connectingFrom)
      ensures isDraggingNode == old(isDraggingNode) && isDraggingCanvas == old(isDraggingCanvas)
      ensures isGraphCreated == old(isGraphCreated) && offset == old(offset)
      ensures draggedNode == old(draggedNode) && dragStart == old(dragStart)
    {
      ghost var before := Current();
      forall c | c in connections
        ensures c.from != NodeId(|nodes| + 1)
      {
        assert c.from in Ids(nodes);
      }
      AddNodeIds(nodes, x, y);
      nodes := AddNode(nodes, x, y);
      CyclesIgnoreNewNode(before, NodeId(|old(nodes)| + 1));
    }

    /** The handle of node `nodeId`. */
    method StartConnection(nodeId: NodeId)
      requires Valid() && nodeId in Ids(nodes)
      modifies this
      ensures Valid() && isConnecting && connectingFrom == Some(nodeId)
      ensures nodes == old(nodes) && connections == old(connections) && cycles == old(cycles)
      ensures isDraggingNode == old(isDraggingNode) && isDraggingCanvas == old(isDraggingCanvas)
      ensures isGraphCreated == old(isGraphCreated) && offset == old(offset)
      ensures draggedNode == old(draggedNode) && dragStart == old(dragStart)
    {
      isConnecting := true;
      connectingFrom := Some(nodeId);
    }

    /** `completeConnection(toNodeId)`; the search runs again when a
        connection was added. The connect mode ends either way. */
    method CompleteConnection(toNodeId: NodeId)
      requires Valid() && toNodeId in Ids(nodes)
      modifies this
      ensures Valid() && !isConnecting && connectingFrom == None
      ensures connections == Connect(old(connections), old(connectingFrom), toNodeId)
      ensures cycles == Cycles(Current())
      ensures nodes == old(nodes)
      ensures isDraggingNode == old(isDraggingNode) && isDraggingCanvas == old(isDraggingCanvas)
      ensures isGraphCreated == old(isGraphCreated) && offset == old(offset)
      ensures draggedNode == old(draggedNode) && dragStart == old(dragStart)
    {
      ConnectKeepsShape(nodes, connections, connectingFrom, toNodeId);
      if connectingFrom.Some? && connectingFrom.value != toNodeId {
        connections := Connect(connections, connectingFrom, toNodeId);
        DetectCycles();
      }
      isConnecting := false;
      connectingFrom := None;
    }

    /** A click on node `nodeId` completes a connection only in connect mode. */
    method HandleNodeClick(nodeId: NodeId)
      requires Valid() && nodeId in Ids(nodes)
      modifies this
      ensures Valid()
      ensures old(isConnecting) ==>
                connections == Connect(old(connections), old(connectingFrom), nodeId) && !isConnecting && connectingFrom == None
      ensures !old(isConnecting) ==>
                connections == old(connections) && connectingFrom == old(connectingFrom) && !isConnecting && cycles == old(cycles)
      ensures nodes == old(nodes) && isDraggingNode == old(isDraggingNode) && isDraggingCanvas == old(isDraggingCanvas)
      ensures isGraphCreated == old(isGraphCreated) && offset == old(offset)
      ensures draggedNode == old(draggedNode) && dragStart == old(dragStart)
    {
      if isConnecting {
        CompleteConnection(nodeId);
      }
    }

    /** `handleNodeDragStart`: mouse-down on a node. */
    method HandleNodeDragStart(nodeId: NodeId)
      requires Valid()
      modifies this
      ensures Valid() && isDraggingNode && draggedNode == Some(nodeId)
      ensures nodes == old(nodes) && connections == old(connections) && isDraggingCanvas == old(isDraggingCanvas)
      ensures offset == old(offset) && isConnecting == old(isConnecting) && connectingFrom == old(connectingFrom)
      ensures isGraphCreated == old(isGraphCreated) && cycles == old(cycles) && dragStart == old(dragStart)
    {
      isDraggingNode := true;
      draggedNode := Some(nodeId);
    }

    /** `handleNodeDrag` with the pointer already converted to graph point `p`. */
    method HandleNodeDrag(p: Point)
      requires Valid()
      modifies this
      ensures Valid()
      ensures isDraggingNode ==> nodes == MoveNode(old(nodes), draggedNode.value, p)
      ensures !isDraggingNode ==> nodes == old(nodes)
      ensures connections == old(connections) && cycles == old(cycles) && offset == old(offset)
      ensures isDraggingNode == old(isDraggingNode) && draggedNode == old(draggedNode)
      ensures isDraggingCanvas == old(isDraggingCanvas) && isGraphCreated == old(isGraphCreated)
      ensures isConnecting == old(isConnecting) && connectingFrom == old(connectingFrom) && dragStart == old(dragStart)
    {
      if !isDraggingNode || draggedNode.None? {
        return;
      }
      MoveNodeKeepsIds(nodes, draggedNode.value, p);
      nodes := MoveNode(nodes, draggedNode.value, p);
    }

    /** `handleNodeDragEnd`. No event handler of the component calls it, so
        once a node has been grabbed `isDraggingNode` stays set. */
    method HandleNodeDragEnd()
      requires Valid()
      modifies this
      ensures Valid() && !isDraggingNode && draggedNode == None
      ensures nodes == old(nodes) && connections == old(connections) && isDraggingCanvas == old(isDraggingCanvas)
      ensures isGraphCreated == old(isGraphCreated) && cycles == old(cycles) && offset == old(offset)
      ensures isConnecting == old(isConnecting) && connectingFrom == old(connectingFrom) && dragStart == old(dragStart)
    {
      isDraggingNode := false;
      draggedNode := None;
    }

    /** `handleCanvasDragStart`: panning starts only while no node is dragged. */
    method HandleCanvasDragStart(pointer: Point)
      requires Valid()
      modifies this
      ensures Valid()
      ensures isDraggingCanvas == (old(isDraggingCanvas) || !old(isDraggingNode))
      ensures !old(isDraggingNode) ==> dragStart == PanAnchor(pointer, old(offset))
      ensures old(isDraggingNode) ==> dragStart == old(dragStart)
      ensures nodes == old(nodes) && offset == old(offset) && isDraggingNode == old(isDraggingNode)
      ensures connections == old(connections) && cycles == old(cycles) && isGraphCreated == old(isGraphCreated)
      ensures isConnecting == old(isConnecting) && connectingFrom == old(connectingFrom) && draggedNode == old(draggedNode)
    {
      if !isDraggingNode {
        isDraggingCanvas := true;
        dragStart := PanAnchor(pointer, offset);
      }
    }

    /** `handleCanvasDrag`: while panning, the offset follows the pointer. */
    method HandleCanvasDrag(pointer: Point)
      requires Valid()
      modifies this
      ensures Valid()
      ensures offset == if isDraggingCanvas then PanOffset(pointer, dragStart) else old(offset)
      ensures nodes == old(nodes) && isDraggingCanvas == old(isDraggingCanvas) && dragStart == old(dragStart)
      ensures isDraggingNode == old(isDraggingNode) && draggedNode == old(draggedNode)
      ensures connections == old(connections) && cycles == old(cycles) && isGraphCreated == old(isGraphCreated)
      ensures isConnecting == old(isConnecting) && connectingFrom == old(connectingFrom)
    {
      if isDraggingCanvas {
        offset := PanOffset(pointer, dragStart);
      }
    }

    /** Mouse-move over the canvas: the grabbed node moves (to graph point
        `p`) while a node is dragged; otherwise the canvas pans. */
    method HandleMouseMove(pointer: Point, p: Point)
      requires Valid()
      modifies this
      ensures Valid()
      ensures old(isDraggingNode) ==> nodes == MoveNode(old(nodes), old(draggedNode).value, p) && offset == old(offset)
      ensures !old(isDraggingNode) ==>
                nodes == old(nodes) && offset == (if isDraggingCanvas then PanOffset(pointer, dragStart) else old(offset))
      ensures isDraggingNode == old(isDraggingNode) && isDraggingCanvas == old(isDraggingCanvas)
      ensures draggedNode == old(draggedNode) && dragStart == old(dragStart)
      ensures connections == old(connections) && cycles == old(cycles) && isGraphCreated == old(isGraphCreated)
      ensures isConnecting == old(isConnecting) && connectingFrom == old(connectingFrom)
    {
      if isDraggingNode {
        HandleNodeDrag(p);
      } else {
        HandleCanvasDrag(pointer);
      }
    }

    /** `handleCanvasDragEnd` (mouse-up and mouse-leave): clears only the
        panning flag. */
    method HandleCanvasDragEnd()
      requires Valid()
      modifies this
      ensures Valid() && !isDraggingCanvas
      ensures nodes == old(nodes) && offset == old(offset)
      ensures isDraggingNode == old(isDraggingNode) && draggedNode == old(draggedNode)
      ensures connections == old(connections) && cycles == old(cycles) && isGraphCreated == old(isGraphCreated)
      ensures isConnecting == old(isConnecting) && connectingFrom == old(connectingFrom) && dragStart == old(dragStart)
    {
      isDraggingCanvas := false;
    }

    /** Whether some connection is drawn with the cycle style: exactly when
        the connections contain a directed cycle. */
    method ShowsCycle() returns (shown: bool)
      requires Valid()
      ensures shown <==> HasCycle(connections)
    {
      shown := cycles != {};
      FlaggedIffCyclic(Current());
    }
  }

  /** The page's connect gesture: press and release on node `a`, click its
      handle, then press, release and click on node `b`. The mouse-downs
      reach `handleNodeDragStart` and the mouse-ups `handleCanvasDragEnd`,
      and neither disturbs the connect mode, so exactly the connection from
      `a` to `b` is added (none when `a == b`). */
  method ConnectGesture(v: DirectedGraphVisualizer, a: NodeId, b: NodeId)
    requires v.Valid() && a in Ids(v.nodes) && b in Ids(v.nodes)
    modifies v
    ensures v.Valid() && !v.isConnecting && v.connectingFrom == None
    ensures v.connections == Connect(old(v.connections), Some(a), b)
    ensures v.cycles == Cycles(v.Current())
    ensures v.nodes == old(v.nodes) && v.offset == old(v.offset)
  {
    v.HandleNodeDragStart(a);
    v.HandleCanvasDragEnd();
    v.StartConnection(a);
    v.HandleNodeDragStart(b);
    v.HandleCanvasDragEnd();
    v.HandleNodeClick(b);
  }
}
