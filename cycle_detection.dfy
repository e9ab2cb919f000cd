/** Cycle flagging of the directed graph visualizer, exactly as its
    depth-first search is written: an edge into a node on the recursion
    stack is flagged and ends the exploration of its source at once (the
    source stays on the stack), and an edge into a child whose search came
    back `true` is flagged while the parent carries on and itself reports
    `false`. The search is first given as functions over an explicit search
    state, then as a class whose recursive method updates the three sets
    in place, as the source does. */
module CycleDetection {
  import opened Common

  /** A connection `{ id, from, to }`. */
  datatype Conn = Conn(id: ConnId, from: NodeId, to: NodeId)

  /** What the search reads: the node ids in the order of the node list,
      and the connections. */
  datatype Graph = Graph(nodes: seq<NodeId>, conns: seq<Conn>)

  /** The three sets the search updates: `visited`, `recursionStack` and
      `newCycles`. */
  datatype Search = Search(visited: set<NodeId>, stack: set<NodeId>, flagged: set<ConnId>)

  /** `connections.filter(conn => conn.from === nodeId)`. */
  function Outgoing(conns: seq<Conn>, u: NodeId): (r: seq<Conn>)
    ensures forall c :: c in r <==> c in conns && c.from == u
    decreases |conns|
  {
    if |conns| == 0 then []
    else if conns[0].from == u then [conns[0]] + Outgoing(conns[1..], u)
    else Outgoing(conns[1..], u)
  }

  /** A node no connection leaves has nothing to explore. */
  lemma {:induction false} OutgoingNone(conns: seq<Conn>, u: NodeId)
    requires forall c :: c in conns ==> c.from != u
    ensures Outgoing(conns, u) == []
    decreases |conns|
  {
    if |conns| > 0 {
      assert conns[0] in conns;
      assert forall c :: c in conns[1..] ==> c in conns;
      OutgoingNone(conns[1..], u);
    }
  }

  function ConnIds(g: Graph): set<ConnId> {
    set c | c in g.conns :: c.id
  }

  /** Every node the search can be started on: the listed nodes and the
      targets of connections. */
  function Universe(g: Graph): set<NodeId> {
    (set n | n in g.nodes) + (set c | c in g.conns :: c.to)
  }

  lemma DiffCard(u: set<NodeId>, a: set<NodeId>, b: set<NodeId>, x: NodeId)
    requires a <= b
    ensures |u - b| <= |u - a|
    ensures x in u && x in b && x !in a ==> |u - b| < |u - a|
  {
    var big := u - a;
    var small := u - b;
    assert big == small + (big - small);
    assert small * (big - small) == {};
    if x in u && x in b && x !in a {
      assert x in big - small;
    }
  }

  // ---------------------------------------------------------------------
  // The search as functions

  /** `dfs(nodeId)`: marks the node visited and on the stack, then runs
      through its outgoing connections. */
  function Explore(g: Graph, u: NodeId, st: Search): (r: (Search, bool))
    requires u in Universe(g) && u !in st.visited
    ensures st.visited + {u} <= r.0.visited
    ensures st.flagged <= r.0.flagged <= st.flagged + ConnIds(g)
    ensures r.1 ==> r.0.flagged != {}
    decreases |Universe(g) - st.visited|, 0
  {
    DiffCard(Universe(g), st.visited, st.visited + {u}, u);
    ExploreEdges(g, u, Outgoing(g.conns, u), Search(st.visited + {u}, st.stack + {u}, st.flagged))
  }

  /** The loop of `dfs(u)` over the connections `out` still to be looked at. */
  function ExploreEdges(g: Graph, u: NodeId, out: seq<Conn>, st: Search): (r: (Search, bool))
    requires forall c :: c in out ==> c in g.conns
    ensures st.visited <= r.0.visited
    ensures st.flagged <= r.0.flagged <= st.flagged + ConnIds(g)
    ensures r.1 ==> r.0.flagged != {}
    decreases |Universe(g) - st.visited|, |out|
  {
    if |out| == 0 then (Search(st.visited, st.stack - {u}, st.flagged), false)
    else
      var c := out[0];
      assert c in g.conns;
      if c.to !in st.visited then
        var child := Explore(g, c.to, st);
        var next := if child.1 then child.0.(flagged := child.0.flagged + {c.id}) else child.0;
        DiffCard(Universe(g), st.visited, next.visited, c.to);
        ExploreEdges(g, u, out[1..], next)
      else if c.to in st.stack then
        (st.(flagged := st.flagged + {c.id}), true)
      else
        ExploreEdges(g, u, out[1..], st)
  }

  /** `nodes.forEach(node => { if (!visited.has(node.id)) dfs(node.id) })`
      over the nodes `roots` still to be looked at. */
  function ExploreRoots(g: Graph, roots: seq<NodeId>, st: Search): (r: Search)
    requires forall n :: n in roots ==> n in g.nodes
    ensures st.visited <= r.visited
    ensures st.flagged <= r.flagged <= st.flagged + ConnIds(g)
    decreases |roots|
  {
    if |roots| == 0 then st
    else if roots[0] in st.visited then ExploreRoots(g, roots[1..], st)
    else ExploreRoots(g, roots[1..], Explore(g, roots[0], st).0)
  }

  /** `detectCycles`: the connection ids flagged by one run from empty sets.
      Only existing connections are ever flagged. */
  function Cycles(g: Graph): (flagged: set<ConnId>)
    ensures flagged <= ConnIds(g)
  {
    ExploreRoots(g, g.nodes, Search({}, {}, {})).flagged
  }

  // ---------------------------------------------------------------------
  // Paths and cycles

  /** `p` is a chain of connections leading from `w` to `v`. */
  ghost predicate IsPath(conns: seq<Conn>, w: NodeId, v: NodeId, p: seq<Conn>) {
    (forall k :: 0 <= k < |p| ==> p[k] in conns)
    && (forall k :: 0 <= k < |p| - 1 ==> p[k].to == p[k + 1].from)
    && (if |p| == 0 then w == v else p[0].from == w && p[|p| - 1].to == v)
  }

  ghost predicate Reaches(conns: seq<Conn>, w: NodeId, v: NodeId) {
    exists p: seq<Conn> :: IsPath(conns, w, v, p)
  }

  /** A non-empty chain of connections that ends where it starts. */
  ghost predicate IsCycle(conns: seq<Conn>, p: seq<Conn>) {
    |p| > 0 && IsPath(conns, p[0].from, p[0].from, p)
  }

  ghost predicate HasCycle(conns: seq<Conn>) {
    exists p: seq<Conn> :: IsCycle(conns, p)
  }

  lemma ReachesStep(conns: seq<Conn>, w: NodeId, c: Conn)
    requires Reaches(conns, w, c.from) && c in conns
    ensures Reaches(conns, w, c.to)
  {
    var p :| IsPath(conns, w, c.from, p);
    assert IsPath(conns, w, c.to, p + [c]);
  }

  /** Closing a chain with a connection back to its start is a cycle. */
  lemma BackEdgeCycle(conns: seq<Conn>, w: NodeId, c: Conn)
    requires Reaches(conns, w, c.from) && c in conns && c.to == w
    ensures HasCycle(conns)
  {
    var p :| IsPath(conns, w, c.from, p);
    var q := p + [c];
    assert q[0].from == w;
    assert IsCycle(conns, q);
  }

  lemma PathTail(conns: seq<Conn>, w: NodeId, v: NodeId, p: seq<Conn>)
    requires |p| > 0 && IsPath(conns, w, v, p)
    ensures IsPath(conns, p[0].to, v, p[1..])
  {
  }

  /** A set of nodes no connection leaves. */
  ghost predicate Closed(conns: seq<Conn>, f: set<NodeId>) {
    forall c :: c in conns && c.from in f ==> c.to in f
  }

  /** No cycle starts at a node of `f`. */
  ghost predicate CycleFree(conns: seq<Conn>, f: set<NodeId>) {
    forall p: seq<Conn> :: IsCycle(conns, p) ==> p[0].from !in f
  }

  /** A chain that starts inside a closed set stays inside it. */
  lemma {:induction false} ClosedPath(conns: seq<Conn>, f: set<NodeId>, w: NodeId, v: NodeId, p: seq<Conn>)
    requires Closed(conns, f) && w in f && IsPath(conns, w, v, p)
    ensures v in f
    decreases |p|
  {
    if |p| > 0 {
      assert p[0] in conns;
      PathTail(conns, w, v, p);
      ClosedPath(conns, f, p[0].to, v, p[1..]);
    }
  }

  // ---------------------------------------------------------------------
  // A run that flags nothing is an ordinary depth-first search

  /** Without a flag, a search returns `false` and leaves the stack as it found it. */
  lemma {:induction false} ExploreUnflaggedRestores(g: Graph, u: NodeId, st: Search)
    requires u in Universe(g) && u !in st.visited && st.stack <= st.visited
    requires Explore(g, u, st).0.flagged == {}
    ensures Explore(g, u, st).0.stack == st.stack && !Explore(g, u, st).1
    ensures Explore(g, u, st).0.stack <= Explore(g, u, st).0.visited
    decreases |Universe(g) - st.visited|, 0
  {
    DiffCard(Universe(g), st.visited, st.visited + {u}, u);
    var st1 := Search(st.visited + {u}, st.stack + {u}, st.flagged);
    ExploreEdgesUnflaggedRestores(g, u, Outgoing(g.conns, u), st1);
    assert st1.stack - {u} == st.stack;
  }

  lemma {:induction false} ExploreEdgesUnflaggedRestores(g: Graph, u: NodeId, out: seq<Conn>, st: Search)
    requires forall c :: c in out ==> c in g.conns
    requires u in st.stack && st.stack <= st.visited
    requires ExploreEdges(g, u, out, st).0.flagged == {}
    ensures ExploreEdges(g, u, out, st).0.stack == st.stack - {u} && !ExploreEdges(g, u, out, st).1
    ensures ExploreEdges(g, u, out, st).0.stack <= ExploreEdges(g, u, out, st).0.visited
    decreases |Universe(g) - st.visited|, |out|
  {
    if |out| > 0 {
      var c := out[0];
      assert c in g.conns;
      if c.to !in st.visited {
        var child := Explore(g, c.to, st);
        var next := if child.1 then child.0.(flagged := child.0.flagged + {c.id}) else child.0;
        DiffCard(Universe(g), st.visited, next.visited, c.to);
        ExploreUnflaggedRestores(g, c.to, st);
        ExploreEdgesUnflaggedRestores(g, u, out[1..], next);
      } else if c.to !in st.stack {
        ExploreEdgesUnflaggedRestores(g, u, out[1..], st);
      }
    }
  }

  /** The finished nodes (visited and off the stack) are closed under
      connections and no cycle starts at one of them. */
  ghost predicate Settled(conns: seq<Conn>, st: Search) {
    st.stack <= st.visited && Closed(conns, st.visited - st.stack) && CycleFree(conns, st.visited - st.stack)
  }

  /** An unflagged search finishes its start node and keeps the finished
      nodes settled. */
  lemma {:induction false} ExploreUnflaggedSettles(g: Graph, u: NodeId, st: Search)
    requires u in Universe(g) && u !in st.visited && Settled(g.conns, st)
    requires Explore(g, u, st).0.flagged == {}
    ensures Settled(g.conns, Explore(g, u, st).0)
    ensures u in Explore(g, u, st).0.visited - Explore(g, u, st).0.stack
    decreases |Universe(g) - st.visited|, 0
  {
    DiffCard(Universe(g), st.visited, st.visited + {u}, u);
    var st1 := Search(st.visited + {u}, st.stack + {u}, st.flagged);
    assert st1.visited - st1.stack == st.visited - st.stack;
    ExploreEdgesUnflaggedSettles(g, u, [], Outgoing(g.conns, u), st1);
  }

  lemma {:induction false} ExploreEdgesUnflaggedSettles(g: Graph, u: NodeId, done: seq<Conn>, out: seq<Conn>, st: Search)
    requires done + out == Outgoing(g.conns, u)
    requires u in st.stack && Settled(g.conns, st)
    requires forall c :: c in done ==> c.to in st.visited - st.stack
    requires ExploreEdges(g, u, out, st).0.flagged == {}
    ensures Settled(g.conns, ExploreEdges(g, u, out, st).0)
    ensures u in ExploreEdges(g, u, out, st).0.visited - ExploreEdges(g, u, out, st).0.stack
    decreases |Universe(g) - st.visited|, |out|
  {
    assert forall c :: c in out ==> c in done + out;
    if |out| == 0 {
      FinishNode(g, u, done, st);
    } else {
      var c := out[0];
      assert c in g.conns;
      assert done + [c] + out[1..] == done + out;
      if c.to !in st.visited {
        var child := Explore(g, c.to, st);
        DiffCard(Universe(g), st.visited, child.0.visited, c.to);
        ExploreUnflaggedRestores(g, c.to, st);
        ExploreUnflaggedSettles(g, c.to, st);
        assert forall d :: d in done + [c] ==> d.to in child.0.visited - child.0.stack;
        ExploreEdgesUnflaggedSettles(g, u, done + [c], out[1..], child.0);
      } else if c.to !in st.stack {
        ExploreEdgesUnflaggedSettles(g, u, done + [c], out[1..], st);
      }
    }
  }

  /** Taking `u` off the stack once every connection out of it leads to a
      finished node keeps the finished nodes settled. */
  lemma FinishNode(g: Graph, u: NodeId, done: seq<Conn>, st: Search)
    requires done == Outgoing(g.conns, u)
    requires u in st.stack && Settled(g.conns, st)
    requires forall c :: c in done ==> c.to in st.visited - st.stack
    ensures Settled(g.conns, Search(st.visited, st.stack - {u}, st.flagged))
  {
    var f := st.visited - st.stack;
    var f1 := st.visited - (st.stack - {u});
    assert f1 == f + {u};
    forall c | c in g.conns && c.from in f1
      ensures c.to in f1
    {
      if c.from == u {
        assert c in done;
      }
    }
    forall p: seq<Conn> | IsCycle(g.conns, p)
      ensures p[0].from !in f1
    {
      if p[0].from == u {
        assert p[0] in g.conns;
        assert p[0] in done;
        PathTail(g.conns, u, u, p);
        ClosedPath(g.conns, f, p[0].to, u, p[1..]);
        assert false;
      }
    }
  }

  lemma {:induction false} ExploreRootsUnflagged(g: Graph, roots: seq<NodeId>, st: Search)
    requires forall n :: n in roots ==> n in g.nodes
    requires Settled(g.conns, st) && st.stack == {}
    requires ExploreRoots(g, roots, st).flagged == {}
    ensures Settled(g.conns, ExploreRoots(g, roots, st)) && ExploreRoots(g, roots, st).stack == {}
    ensures forall n :: n in roots ==> n in ExploreRoots(g, roots, st).visited
    decreases |roots|
  {
    if |roots| > 0 {
      assert forall n :: n in roots[1..] ==> n in roots;
      if roots[0] in st.visited {
        ExploreRootsUnflagged(g, roots[1..], st);
      } else {
        ExploreUnflaggedRestores(g, roots[0], st);
        ExploreUnflaggedSettles(g, roots[0], st);
        ExploreRootsUnflagged(g, roots[1..], Explore(g, roots[0], st).0);
      }
      assert roots == [roots[0]] + roots[1..];
    }
  }

  // ---------------------------------------------------------------------
  // The first flag closes a real cycle

  /** Every node on the stack reaches the node being explored, so the
      first edge into the stack closes a cycle. */
  lemma {:induction false} ExploreFlagsOnlyCycles(g: Graph, u: NodeId, st: Search)
    requires u in Universe(g) && u !in st.visited && st.stack <= st.visited && st.flagged == {}
    requires forall w :: w in st.stack ==> Reaches(g.conns, w, u)
    ensures Explore(g, u, st).0.flagged != {} ==> HasCycle(g.conns)
    decreases |Universe(g) - st.visited|, 0
  {
    DiffCard(Universe(g), st.visited, st.visited + {u}, u);
    var st1 := Search(st.visited + {u}, st.stack + {u}, st.flagged);
    assert IsPath(g.conns, u, u, []);
    ExploreEdgesFlagsOnlyCycles(g, u, Outgoing(g.conns, u), st1);
  }

  lemma {:induction false} ExploreEdgesFlagsOnlyCycles(g: Graph, u: NodeId, out: seq<Conn>, st: Search)
    requires forall c :: c in out ==> c in g.conns && c.from == u
    requires u in st.stack && st.stack <= st.visited && st.flagged == {}
    requires forall w :: w in st.stack ==> Reaches(g.conns, w, u)
    ensures ExploreEdges(g, u, out, st).0.flagged != {} ==> HasCycle(g.conns)
    decreases |Universe(g) - st.visited|, |out|
  {
    if |out| > 0 {
      var c := out[0];
      assert c in out;
      if c.to !in st.visited {
        forall w | w in st.stack
          ensures Reaches(g.conns, w, c.to)
        {
          ReachesStep(g.conns, w, c);
        }
        var child := Explore(g, c.to, st);
        ExploreFlagsOnlyCycles(g, c.to, st);
        if child.0.flagged == {} {
          ExploreUnflaggedRestores(g, c.to, st);
          DiffCard(Universe(g), st.visited, child.0.visited, c.to);
          ExploreEdgesFlagsOnlyCycles(g, u, out[1..], child.0);
        }
      } else if c.to in st.stack {
        BackEdgeCycle(g.conns, c.to, c);
      } else {
        ExploreEdgesFlagsOnlyCycles(g, u, out[1..], st);
      }
    }
  }

  lemma {:induction false} ExploreRootsFlagsOnlyCycles(g: Graph, roots: seq<NodeId>, st: Search)
    requires forall n :: n in roots ==> n in g.nodes
    requires st.stack == {} && st.flagged == {}
    ensures ExploreRoots(g, roots, st).flagged != {} ==> HasCycle(g.conns)
    decreases |roots|
  {
    if |roots| > 0 {
      assert forall n :: n in roots[1..] ==> n in roots;
      if roots[0] in st.visited {
        ExploreRootsFlagsOnlyCycles(g, roots[1..], st);
      } else {
        var child := Explore(g, roots[0], st);
        ExploreFlagsOnlyCycles(g, roots[0], st);
        if child.0.flagged == {} {
          ExploreUnflaggedRestores(g, roots[0], st);
          ExploreRootsFlagsOnlyCycles(g, roots[1..], child.0);
        }
      }
    }
  }

  // ---------------------------------------------------------------------
  // What the flags mean

  /** Every connection leaves a listed node (the visualizer only connects
      nodes it shows). */
  ghost predicate SourcesListed(g: Graph) {
    forall c :: c in g.conns ==> c.from in g.nodes
  }

  /** The flagged set is empty exactly when the connections contain no
      directed cycle. */
  lemma FlaggedIffCyclic(g: Graph)
    requires SourcesListed(g)
    ensures Cycles(g) == {} <==> !HasCycle(g.conns)
  {
    var init := Search({}, {}, {});
    assert Closed(g.conns, init.visited - init.stack);
    ExploreRootsFlagsOnlyCycles(g, g.nodes, init);
    if Cycles(g) == {} {
      ExploreRootsUnflagged(g, g.nodes, init);
      var fin := ExploreRoots(g, g.nodes, init);
      assert forall c :: c in g.conns ==> c.from in fin.visited - fin.stack;
    }
  }

  /** The search reads the node list only for its roots: two graphs with
      the same connections search alike from the same node. */
  lemma {:induction false} ExploreSameConns(g1: Graph, g2: Graph, u: NodeId, st: Search)
    requires g1.conns == g2.conns && u in Universe(g1) && u in Universe(g2) && u !in st.visited
    ensures Explore(g1, u, st) == Explore(g2, u, st)
    decreases |Universe(g1) - st.visited|, 0
  {
    DiffCard(Universe(g1), st.visited, st.visited + {u}, u);
    var st1 := Search(st.visited + {u}, st.stack + {u}, st.flagged);
    ExploreEdgesSameConns(g1, g2, u, Outgoing(g1.conns, u), st1);
  }

  lemma {:induction false} ExploreEdgesSameConns(g1: Graph, g2: Graph, u: NodeId, out: seq<Conn>, st: Search)
    requires g1.conns == g2.conns && forall c :: c in out ==> c in g1.conns
    ensures ExploreEdges(g1, u, out, st) == ExploreEdges(g2, u, out, st)
    decreases |Universe(g1) - st.visited|, |out|
  {
    if |out| > 0 {
      var c := out[0];
      assert c in g1.conns;
      if c.to !in st.visited {
        ExploreSameConns(g1, g2, c.to, st);
        var child := Explore(g1, c.to, st);
        var next := if child.1 then child.0.(flagged := child.0.flagged + {c.id}) else child.0;
        DiffCard(Universe(g1), st.visited, next.visited, c.to);
        ExploreEdgesSameConns(g1, g2, u, out[1..], next);
      } else if c.to !in st.stack {
        ExploreEdgesSameConns(g1, g2, u, out[1..], st);
      }
    }
  }

  lemma {:induction false} ExploreRootsSnoc(g1: Graph, g2: Graph, roots: seq<NodeId>, n: NodeId, st: Search)
    requires g1.conns == g2.conns && g2.nodes == g1.nodes + [n]
    requires forall r :: r in roots ==> r in g1.nodes
    requires forall c :: c in g1.conns ==> c.from != n
    ensures forall r :: r in roots + [n] ==> r in g2.nodes
    ensures ExploreRoots(g2, roots + [n], st).flagged == ExploreRoots(g1, roots, st).flagged
    decreases |roots|
  {
    assert forall r :: r in roots + [n] ==> r in roots || r == n;
    if |roots| == 0 {
      assert roots + [n] == [n] && [n][1..] == [];
      if n !in st.visited {
        OutgoingNone(g2.conns, n);
        assert Explore(g2, n, st).0.flagged == st.flagged;
      }
    } else {
      assert (roots + [n])[1..] == roots[1..] + [n];
      assert forall r :: r in roots[1..] ==> r in roots;
      if roots[0] in st.visited {
        ExploreRootsSnoc(g1, g2, roots[1..], n, st);
      } else {
        ExploreSameConns(g1, g2, roots[0], st);
        ExploreRootsSnoc(g1, g2, roots[1..], n, Explore(g1, roots[0], st).0);
      }
    }
  }

  /** Appending a node that no connection leaves does not change what is
      flagged: this is why the visualizer may keep its flags when a node is
      added and recompute them only when the connections change. */
  lemma CyclesIgnoreNewNode(g: Graph, n: NodeId)
    requires forall c :: c in g.conns ==> c.from != n
    ensures Cycles(Graph(g.nodes + [n], g.conns)) == Cycles(g)
  {
    ExploreRootsSnoc(g, Graph(g.nodes + [n], g.conns), g.nodes, n, Search({}, {}, {}));
  }

  /** Without connections nothing is flagged. */
  lemma NoConnsNoCycles(g: Graph)
    requires g.conns == []
    ensures Cycles(g) == {} && !HasCycle(g.conns)
  {
    forall p: seq<Conn>
      ensures !IsCycle(g.conns, p)
    {
      if |p| > 0 {
        assert p[0] !in g.conns;
      }
    }
  }

  /** Nodes A, B, C (`node-1` to `node-3`) with `conn-1` A→B, `conn-2` B→C
      and `conn-3` C→A. */
  function Triangle(): Graph {
    Graph([NodeId(1), NodeId(2), NodeId(3)],
          [Conn(ConnId(1), NodeId(1), NodeId(2)),
           Conn(ConnId(2), NodeId(2), NodeId(3)),
           Conn(ConnId(3), NodeId(3), NodeId(1))])
  }

  lemma TriangleOutgoing()
    ensures Outgoing(Triangle().conns, NodeId(1)) == [Triangle().conns[0]]
    ensures Outgoing(Triangle().conns, NodeId(2)) == [Triangle().conns[1]]
    ensures Outgoing(Triangle().conns, NodeId(3)) == [Triangle().conns[2]]
  {
    var cs := Triangle().conns;
    assert cs[1..] == [cs[1], cs[2]] && [cs[1], cs[2]][1..] == [cs[2]] && [cs[2]][1..] == [];
    assert Outgoing([cs[2]], NodeId(1)) == [] && Outgoing([cs[2]], NodeId(2)) == [] && Outgoing([cs[2]], NodeId(3)) == [cs[2]];
    assert Outgoing([cs[1], cs[2]], NodeId(1)) == [] && Outgoing([cs[1], cs[2]], NodeId(3)) == [cs[2]];
  }

  /** The search from B, entered from A: C's edge back to A is flagged and
      C reports `true`, so B flags B→C and then reports `false`, leaving C on
      the stack. */
  lemma TriangleFromB()
    ensures Explore(Triangle(), NodeId(2), Search({NodeId(1)}, {NodeId(1)}, {}))
            == (Search({NodeId(1), NodeId(2), NodeId(3)}, {NodeId(1), NodeId(3)}, {ConnId(2), ConnId(3)}), false)
  {
    var g := Triangle();
    var a, b, c := NodeId(1), NodeId(2), NodeId(3);
    TriangleOutgoing();
    var all := {a, b, c};
    var atC := Search(all, all, {});
    var fromC := ExploreEdges(g, c, [g.conns[2]], atC);
    assert [g.conns[2]][0] == g.conns[2];
    assert g.conns[2].to in atC.visited && g.conns[2].to in atC.stack;
    assert fromC.0.flagged == {ConnId(3)};
    assert fromC == (Search(all, all, {ConnId(3)}), true);
    var atB := Search({a, b}, {a, b}, {});
    assert atB.visited + {c} == all && atB.stack + {c} == all;
    assert Explore(g, c, atB) == fromC;
    var afterB := Search(all, all, {ConnId(2), ConnId(3)});
    assert fromC.0.(flagged := fromC.0.flagged + {ConnId(2)}) == afterB;
    assert [g.conns[1]][1..] == [];
    var fromB := ExploreEdges(g, b, [g.conns[1]], atB);
    assert fromB == ExploreEdges(g, b, [], afterB);
    assert all - {b} == {a, c};
    assert {a} + {b} == {a, b};
  }

  /** Flagging is not textbook cycle membership: for A→B, B→C, C→A with A
      first, the edge C→A into the stack and the edge B→C into the child
      that reported it are flagged, but A→B is not, because B's search
      reports `false` after flagging. */
  lemma TriangleExample()
    ensures Cycles(Triangle()) == {ConnId(2), ConnId(3)}
  {
    var g := Triangle();
    var a, b, c := NodeId(1), NodeId(2), NodeId(3);
    TriangleOutgoing();
    TriangleFromB();
    var atA := Search({a}, {a}, {});
    var afterA := Search({a, b, c}, {a, c}, {ConnId(2), ConnId(3)});
    assert [g.conns[0]][1..] == [];
    assert ExploreEdges(g, a, [g.conns[0]], atA) == ExploreEdges(g, a, [], afterA);
    var fin := Search({a, b, c}, {c}, {ConnId(2), ConnId(3)});
    assert {a, c} - {a} == {c};
    assert {} + {a} == {a};
    assert Explore(g, a, Search({}, {}, {})) == (fin, false);
    assert g.nodes[1..] == [b, c] && [b, c][1..] == [c] && [c][1..] == [];
    assert ExploreRoots(g, [c], fin) == fin;
    assert ExploreRoots(g, [b, c], fin) == fin;
  }

  /** The triangle with a fourth node D (`node-4`) and `conn-4` D→C. */
  function StaleStack(): Graph {
    Graph([NodeId(1), NodeId(2), NodeId(3), NodeId(4)],
          [Conn(ConnId(1), NodeId(1), NodeId(2)),
           Conn(ConnId(2), NodeId(2), NodeId(3)),
           Conn(ConnId(3), NodeId(3), NodeId(1)),
           Conn(ConnId(4), NodeId(4), NodeId(3))])
  }

  lemma StaleStackOutgoing()
    ensures Outgoing(StaleStack().conns, NodeId(1)) == [StaleStack().conns[0]]
    ensures Outgoing(StaleStack().conns, NodeId(2)) == [StaleStack().conns[1]]
    ensures Outgoing(StaleStack().conns, NodeId(3)) == [StaleStack().conns[2]]
    ensures Outgoing(StaleStack().conns, NodeId(4)) == [StaleStack().conns[3]]
  {
    var cs := StaleStack().conns;
    assert cs[1..] == [cs[1], cs[2], cs[3]] && [cs[1], cs[2], cs[3]][1..] == [cs[2], cs[3]];
    assert [cs[2], cs[3]][1..] == [cs[3]] && [cs[3]][1..] == [];
    assert Outgoing([cs[3]], NodeId(1)) == [] && Outgoing([cs[3]], NodeId(2)) == [];
    assert Outgoing([cs[3]], NodeId(3)) == [] && Outgoing([cs[3]], NodeId(4)) == [cs[3]];
    assert Outgoing([cs[2], cs[3]], NodeId(1)) == [] && Outgoing([cs[2], cs[3]], NodeId(2)) == [];
    assert Outgoing([cs[2], cs[3]], NodeId(3)) == [cs[2]] && Outgoing([cs[2], cs[3]], NodeId(4)) == [cs[3]];
    assert Outgoing([cs[1], cs[2], cs[3]], NodeId(1)) == [];
    assert Outgoing([cs[1], cs[2], cs[3]], NodeId(3)) == [cs[2]];
    assert Outgoing([cs[1], cs[2], cs[3]], NodeId(4)) == [cs[3]];
  }

  /** A flagged connection need not lie on a cycle. The search from A
      leaves C on the stack (see `TriangleFromB`), so D's connection into C
      is taken for a back edge and flagged as well. */
  lemma StaleStackExample()
    ensures Cycles(StaleStack()) == {ConnId(2), ConnId(3), ConnId(4)}
  {
    var g := StaleStack();
    var a, b, c, d := NodeId(1), NodeId(2), NodeId(3), NodeId(4);
    StaleStackOutgoing();
    // The search from B, entered from A, as in the triangle.
    var all := {a, b, c};
    var atC := Search(all, all, {});
    var fromC := ExploreEdges(g, c, [g.conns[2]], atC);
    assert [g.conns[2]][0] == g.conns[2];
    assert g.conns[2].to in atC.visited && g.conns[2].to in atC.stack;
    assert fromC.0.flagged == {ConnId(3)};
    assert fromC == (Search(all, all, {ConnId(3)}), true);
    var atB := Search({a, b}, {a, b}, {});
    assert atB.visited + {c} == all && atB.stack + {c} == all;
    assert Explore(g, c, atB) == fromC;
    var afterB := Search(all, all, {ConnId(2), ConnId(3)});
    assert fromC.0.(flagged := fromC.0.flagged + {ConnId(2)}) == afterB;
    assert [g.conns[1]][1..] == [];
    assert ExploreEdges(g, b, [g.conns[1]], atB) == ExploreEdges(g, b, [], afterB);
    assert all - {b} == {a, c};
    assert {a} + {b} == {a, b};
    // The search from A ends with C still on the stack.
    var atA := Search({a}, {a}, {});
    var afterA := Search(all, {a, c}, {ConnId(2), ConnId(3)});
    assert [g.conns[0]][1..] == [];
    assert ExploreEdges(g, a, [g.conns[0]], atA) == ExploreEdges(g, a, [], afterA);
    var fin := Search(all, {c}, {ConnId(2), ConnId(3)});
    assert {a, c} - {a} == {c};
    assert {} + {a} == {a};
    assert Explore(g, a, Search({}, {}, {})) == (fin, false);
    // D's only connection leads into the stale stack.
    var atD := Search(fin.visited + {d}, fin.stack + {d}, fin.flagged);
    assert [g.conns[3]][0] == g.conns[3];
    assert g.conns[3].to in atD.visited && g.conns[3].to in atD.stack;
    var last := Search(all + {d}, {c, d}, {ConnId(2), ConnId(3), ConnId(4)});
    assert atD.stack == {c, d} && atD.flagged + {ConnId(4)} == last.flagged;
    assert ExploreEdges(g, d, [g.conns[3]], atD) == (last, true);
    assert Explore(g, d, fin) == (last, true);
    assert g.nodes[1..] == [b, c, d] && [b, c, d][1..] == [c, d] && [c, d][1..] == [d] && [d][1..] == [];
    assert ExploreRoots(g, [d], fin) == last;
    assert ExploreRoots(g, [c, d], fin) == last;
    assert ExploreRoots(g, [b, c, d], fin) == last;
  }

  /** No connection enters D, so D→C lies on no cycle. */
  lemma StaleStackFlagOffCycle(p: seq<Conn>)
    requires IsCycle(StaleStack().conns, p)
    ensures StaleStack().conns[3] !in p
  {
    var cs := StaleStack().conns;
    forall k | 0 <= k < |p|
      ensures p[k].to != NodeId(4)
    {
      assert p[k] in cs;
    }
    forall k | 0 <= k < |p|
      ensures p[k].from != NodeId(4)
    {
      var prev := if k == 0 then |p| - 1 else k - 1;
      assert p[prev].to == p[k].from;
    }
  }

  // ---------------------------------------------------------------------
  // The search as the source runs it

  /** The closure state of one `detectCycles` run. */
  class CycleSearch {
    const graph: Graph
    var visited: set<NodeId>
    var recursionStack: set<NodeId>
    var newCycles: set<ConnId>

    function State(): Search
      reads this
    {
      Search(visited, recursionStack, newCycles)
    }

    constructor (g: Graph)
      ensures graph == g && State() == Search({}, {}, {})
    {
      graph := g;
      visited := {};
      recursionStack := {};
      newCycles := {};
    }

    /** `dfs(nodeId)`. */
    method Dfs(nodeId: NodeId) returns (found: bool)
      requires nodeId in Universe(graph) && nodeId !in visited
      modifies this
      ensures (State(), found) == Explore(graph, nodeId, old(State()))
      decreases |Universe(graph) - visited|
    {
      ghost var entry := State();
      visited := visited + {nodeId};
      recursionStack := recursionStack + {nodeId};
      var outgoing := Outgoing(graph.conns, nodeId);
      ghost var start := State();
      for i := 0 to |outgoing|
        invariant ExploreEdges(graph, nodeId, outgoing[i..], State()) == ExploreEdges(graph, nodeId, outgoing, start)
        invariant entry.visited + {nodeId} <= visited
      {
        var conn := outgoing[i];
        assert outgoing[i..][1..] == outgoing[i + 1..];
        if conn.to !in visited {
          DiffCard(Universe(graph), entry.visited, visited, nodeId);
          var childFound := Dfs(conn.to);
          if childFound {
            newCycles := newCycles + {conn.id};
          }
        } else if conn.to in recursionStack {
          newCycles := newCycles + {conn.id};
          return true;
        }
      }
      recursionStack := recursionStack - {nodeId};
      return false;
    }

    /** The body of `detectCycles` before `setCycles`: a search from every
        node not yet visited, in list order. */
    method Run()
      requires State() == Search({}, {}, {})
      modifies this
      ensures newCycles == Cycles(graph)
    {
      ghost var init := State();
      for i := 0 to |graph.nodes|
        invariant ExploreRoots(graph, graph.nodes[i..], State()) == ExploreRoots(graph, graph.nodes, init)
      {
        var node := graph.nodes[i];
        assert graph.nodes[i..][1..] == graph.nodes[i + 1..];
        if node !in visited {
          var _ := Dfs(node);
        }
      }
    }
  }
}
