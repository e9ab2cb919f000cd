/** The grid graph builder: a seed node, nodes grown from an existing node
    in one of four directions (pushing the nodes beyond the new slot one
    step further out), undirected links from the source to each grown node,
    drag-and-drop repositioning and a click toggle for the selected node. */
module GridGraph {
  import opened Common

  datatype GraphNode = GraphNode(id: NodeId, position: Point)

  /** `{ from: source.id, to: newNode.id }`. */
  datatype Link = Link(from: NodeId, to: NodeId)

  /** The direction argument; `Unknown` stands for any other string, which
      the position switch ignores. */
  datatype Direction = Left | Right | Top | Bottom | Unknown

  const Spacing: real := 100.0

  /** `handleCreateGraph`: the seed `node-1`, centred in the drawing area
      (20 is half a node's width and height). */
  function CreateGraph(width: real, height: real): (ns: seq<GraphNode>)
    ensures |ns| == 1 && ns[0].id == NodeId(1)
    ensures ns[0].position.x + 20.0 == width / 2.0 && ns[0].position.y + 20.0 == height / 2.0
  {
    [GraphNode(NodeId(1), Point(width / 2.0 - 20.0, height / 2.0 - 20.0))]
  }

  /** `handleAddNode`: appends `node-(n+1)` at a place drawn at random, which
      is a parameter here. No element of the page calls this handler. */
  function AddNode(ns: seq<GraphNode>, position: Point): (r: seq<GraphNode>)
    ensures |r| == |ns| + 1 && r[..|ns|] == ns
    ensures r[|ns|].id == NodeId(|ns| + 1) && r[|ns|].position == position
  {
    ns + [GraphNode(NodeId(|ns| + 1), position)]
  }

  // ---------------------------------------------------------------------
  // Growing in a direction

  /** One spacing step from `p` in direction `d`; an unknown direction stays put. */
  function Step(p: Point, d: Direction): (q: Point)
    ensures d == Unknown ==> q == p
    ensures d == Left || d == Right ==> q.y == p.y && (q.x == p.x - 100.0 || q.x == p.x + 100.0)
    ensures d == Top || d == Bottom ==> q.x == p.x && (q.y == p.y - 100.0 || q.y == p.y + 100.0)
  {
    match d
    case Left => Point(p.x - Spacing, p.y)
    case Right => Point(p.x + Spacing, p.y)
    case Top => Point(p.x, p.y - Spacing)
    case Bottom => Point(p.x, p.y + Spacing)
    case Unknown => p
  }

  /** The node at `p` lies at or beyond the new node's slot, seen from `src`. */
  predicate Beyond(p: Point, src: Point, d: Direction) {
    match d
    case Right => p.x >= src.x + Spacing
    case Left => p.x <= src.x - Spacing
    case Bottom => p.y >= src.y + Spacing
    case Top => p.y <= src.y - Spacing
    case Unknown => false
  }

  /** The per-node body of the `map` in `addNodeInDirection`. */
  function ShiftNode(n: GraphNode, src: Point, d: Direction): (m: GraphNode)
    ensures m.id == n.id
    ensures Beyond(n.position, src, d) ==> m.position == Step(n.position, d)
    ensures !Beyond(n.position, src, d) ==> m == n
  {
    if Beyond(n.position, src, d) then n.(position := Step(n.position, d)) else n
  }

  function ShiftAll(ns: seq<GraphNode>, src: Point, d: Direction): (r: seq<GraphNode>)
    ensures |r| == |ns|
    ensures forall i :: 0 <= i < |ns| ==> r[i] == ShiftNode(ns[i], src, d)
  {
    seq(|ns|, i requires 0 <= i < |ns| => ShiftNode(ns[i], src, d))
  }

  /** `addNodeInDirection(source, d)`: the new node list and link list. */
  function AddNodeInDirection(ns: seq<GraphNode>, links: seq<Link>, source: GraphNode, d: Direction): (r: (seq<GraphNode>, seq<Link>))
    ensures |r.0| == |ns| + 1 && r.0[..|ns|] == ShiftAll(ns, source.position, d)
    ensures r.0[|ns|] == GraphNode(NodeId(|ns| + 1), Step(source.position, d))
    ensures r.1 == links + [Link(source.id, NodeId(|ns| + 1))]
  {
    var moved := ShiftAll(ns, source.position, d);
    (moved + [GraphNode(NodeId(|ns| + 1), Step(source.position, d))], links + [Link(source.id, NodeId(|ns| + 1))])
  }

  /** The existing nodes keep their ids and order; each moves one step in
      the direction exactly when it lay at or beyond the new slot, and only
      along the direction's axis. */
  lemma ShiftExact(ns: seq<GraphNode>, links: seq<Link>, source: GraphNode, d: Direction)
    ensures var r := AddNodeInDirection(ns, links, source, d).0;
            forall i :: 0 <= i < |ns| ==>
              r[i].id == ns[i].id
              && (d == Left || d == Right ==> r[i].position.y == ns[i].position.y)
              && (d == Top || d == Bottom ==> r[i].position.x == ns[i].position.x)
              && (r[i].position == ns[i].position <==> !Beyond(ns[i].position, source.position, d))
  {
    var r := AddNodeInDirection(ns, links, source, d).0;
    forall i | 0 <= i < |ns|
      ensures r[i] == ShiftNode(ns[i], source.position, d)
    {
      assert r[i] == r[..|ns|][i];
    }
  }

  /** The new node sits exactly one spacing from the source along the
      direction; with an unknown direction it sits on the source. */
  lemma NewNodePlacement(ns: seq<GraphNode>, links: seq<Link>, source: GraphNode, d: Direction)
    ensures var p := AddNodeInDirection(ns, links, source, d).0[|ns|].position;
            var s := source.position;
            match d
            case Right => p == Point(s.x + 100.0, s.y)
            case Left => p == Point(s.x - 100.0, s.y)
            case Bottom => p == Point(s.x, s.y + 100.0)
            case Top => p == Point(s.x, s.y - 100.0)
            case Unknown => p == s
  {
  }

  /** A node at the source's own position never moves, so the source itself
      stays where it is. */
  lemma SourceNeverShifted(ns: seq<GraphNode>, links: seq<Link>, source: GraphNode, d: Direction, i: nat)
    requires i < |ns| && ns[i].position == source.position
    ensures AddNodeInDirection(ns, links, source, d).0[i] == ns[i]
  {
    ShiftExact(ns, links, source, d);
  }

  /** The shift makes room: in a known direction, no existing node ends up
      on the new node's position. */
  lemma NewSlotFree(ns: seq<GraphNode>, links: seq<Link>, source: GraphNode, d: Direction)
    requires d != Unknown
    ensures var r := AddNodeInDirection(ns, links, source, d).0;
            forall i :: 0 <= i < |ns| ==> r[i].position != r[|ns|].position
  {
    var r := AddNodeInDirection(ns, links, source, d).0;
    forall i | 0 <= i < |ns|
      ensures r[i].position != r[|ns|].position
    {
      assert r[i] == ShiftNode(ns[i], source.position, d) by {
        assert r[i] == r[..|ns|][i];
      }
    }
  }

  /** The shift keeps the nodes' order along the direction's axis. */
  lemma ShiftMonotone(a: GraphNode, b: GraphNode, src: Point, d: Direction)
    ensures d == Left || d == Right ==>
      (a.position.x <= b.position.x ==> ShiftNode(a, src, d).position.x <= ShiftNode(b, src, d).position.x)
    ensures d == Top || d == Bottom ==>
      (a.position.y <= b.position.y ==> ShiftNode(a, src, d).position.y <= ShiftNode(b, src, d).position.y)
  {
  }

  // ---------------------------------------------------------------------
  // Dragging and selection

  /** `handleDrop(id)`: every node with that id moves to the drop point. */
  function Drop(ns: seq<GraphNode>, id: NodeId, at: Point): (r: seq<GraphNode>)
    ensures |r| == |ns|
    ensures forall i :: 0 <= i < |ns| ==> r[i].id == ns[i].id
    ensures forall i :: 0 <= i < |ns| ==> r[i].position == if ns[i].id == id then at else ns[i].position
  {
    seq(|ns|, i requires 0 <= i < |ns| => if ns[i].id == id then ns[i].(position := at) else ns[i])
  }

  /** Dropping a node twice in a row leaves only the second drop. */
  lemma DropTwice(ns: seq<GraphNode>, id: NodeId, p: Point, q: Point)
    ensures Drop(Drop(ns, id, p), id, q) == Drop(ns, id, q)
  {
    var a := Drop(Drop(ns, id, p), id, q);
    var b := Drop(ns, id, q);
    assert forall i :: 0 <= i < |ns| ==> a[i] == b[i];
  }

  /** `handleNodeClick(id)`: the selected node is deselected, any other node
      becomes the selection. */
  function Toggle(selected: Option<NodeId>, id: NodeId): (r: Option<NodeId>)
    ensures r == Some(id) <==> selected != Some(id)
    ensures r != Some(id) ==> r == None
  {
    if selected == Some(id) then None else Some(id)
  }

  /** Clicking the same node twice is a round trip from no selection or from
      that node selected; from another node selected it ends with nothing
      selected. */
  lemma ToggleTwice(selected: Option<NodeId>, id: NodeId)
    ensures selected == None || selected == Some(id) ==> Toggle(Toggle(selected, id), id) == selected
    ensures selected != Some(id) ==> Toggle(Toggle(selected, id), id) == None
  {
  }

  // ---------------------------------------------------------------------
  // The graph invariant

  /** Node `k` is `node-(k+1)`, and every link goes from an existing node to
      a later one, so the links can never close a cycle. */
  ghost predicate GridValid(ns: seq<GraphNode>, links: seq<Link>) {
    (forall i :: 0 <= i < |ns| ==> ns[i].id == NodeId(i + 1))
    && (forall l :: l in links ==> 1 <= l.from.n < l.to.n <= |ns|)
  }

  lemma CreateGraphValid(width: real, height: real)
    ensures GridValid(CreateGraph(width, height), [])
  {
  }

  lemma AddNodeValid(ns: seq<GraphNode>, links: seq<Link>, position: Point)
    requires GridValid(ns, links)
    ensures GridValid(AddNode(ns, position), links)
  {
  }

  /** Growing from a node of the graph keeps the invariant. */
  lemma AddNodeInDirectionValid(ns: seq<GraphNode>, links: seq<Link>, source: GraphNode, d: Direction)
    requires GridValid(ns, links) && source in ns
    ensures var r := AddNodeInDirection(ns, links, source, d);
            GridValid(r.0, r.1)
  {
    var r := AddNodeInDirection(ns, links, source, d);
    var j :| 0 <= j < |ns| && ns[j] == source;
    assert 1 <= source.id.n <= |ns|;
    assert forall l :: l in r.1 ==> l in links || l == Link(source.id, NodeId(|ns| + 1));
    ShiftExact(ns, links, source, d);
    forall i | 0 <= i < |r.0|
      ensures r.0[i].id == NodeId(i + 1)
    {
      if i < |ns| {
        assert r.0[i].id == ns[i].id;
      }
    }
  }

  lemma DropValid(ns: seq<GraphNode>, links: seq<Link>, id: NodeId, at: Point)
    requires GridValid(ns, links)
    ensures GridValid(Drop(ns, id, at), links)
  {
  }

  /** The links of a valid graph, read as directed edges, form no cycle: a
      run of links each starting where the last one ended keeps climbing. */
  lemma {:induction false} LinksClimb(ns: seq<GraphNode>, links: seq<Link>, path: seq<Link>)
    requires GridValid(ns, links)
    requires forall l :: l in path ==> l in links
    requires forall k :: 0 < k < |path| ==> path[k].from == path[k - 1].to
    requires |path| > 0
    ensures path[0].from.n < path[|path| - 1].to.n
    decreases |path|
  {
    if |path| > 1 {
      var tail := path[1..];
      assert forall k :: 0 < k < |tail| ==> tail[k].from == tail[k - 1].to by {
        forall k | 0 < k < |tail|
          ensures tail[k].from == tail[k - 1].to
        {
          assert tail[k] == path[k + 1] && tail[k - 1] == path[k];
        }
      }
      LinksClimb(ns, links, tail);
      assert path[0] in links && path[1] in links;
    } else {
      assert path[0] in links;
    }
  }
}
