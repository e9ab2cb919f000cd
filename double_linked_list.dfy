/** The doubly linked list editor: a row of numbered nodes that grows at
    either end, 120 apart, with deletion, value edits and wheel zoom. */
module DoubleLinkedList {
  import opened Common
  import opened Strings

  datatype ListNode = ListNode(id: NodeId, value: string, position: Point)

  const Gap: real := 120.0

  /** Where the first node goes, and where a node added to an empty list goes. */
  function Home(windowWidth: real, windowHeight: real): Point {
    Point(windowWidth / 2.0 - 40.0, windowHeight / 2.0 - 20.0)
  }

  /** The first render: `node-1` with value "1" at the home position. */
  function Init(windowWidth: real, windowHeight: real): (ns: seq<ListNode>)
    ensures |ns| == 1 && ns[0].id == NodeId(1) && ns[0].value == "1"
    ensures ns[0].position == Home(windowWidth, windowHeight)
  {
    [ListNode(NodeId(1), "1", Home(windowWidth, windowHeight))]
  }

  /** `calculateNewNodePosition`: 120 before the first node for the start,
      120 after the last for the end, the home position in an empty list. */
  function NewPosition(ns: seq<ListNode>, atStart: bool, home: Point): (p: Point)
    ensures |ns| == 0 ==> p == home
    ensures |ns| > 0 && atStart ==> p.x == ns[0].position.x - 120.0 && p.y == ns[0].position.y
    ensures |ns| > 0 && !atStart ==> p.x == ns[|ns| - 1].position.x + 120.0 && p.y == ns[|ns| - 1].position.y
  {
    if |ns| == 0 then home
    else
      var end := if atStart then ns[0] else ns[|ns| - 1];
      Point(end.position.x + (if atStart then -Gap else Gap), end.position.y)
  }

  /** `addNode(position)`: `'start'` prepends, anything else appends; the new
      node is `node-(n+1)` with value n+1. */
  function AddNode(ns: seq<ListNode>, atStart: bool, home: Point): (r: seq<ListNode>)
    ensures |r| == |ns| + 1
    ensures atStart ==> r[0] == ListNode(NodeId(|ns| + 1), NatToString(|ns| + 1), NewPosition(ns, true, home)) && r[1..] == ns
    ensures !atStart ==> r[|ns|] == ListNode(NodeId(|ns| + 1), NatToString(|ns| + 1), NewPosition(ns, false, home)) && r[..|ns|] == ns
  {
    var n := ListNode(NodeId(|ns| + 1), NatToString(|ns| + 1), NewPosition(ns, atStart, home));
    if atStart then [n] + ns else ns + [n]
  }

  /** `deleteNode(id)`: `nodes.filter(n => n.id !== id)`, this component's
      own delete over its own node records. */
  function DeleteNode(ns: seq<ListNode>, id: NodeId): (r: seq<ListNode>)
    ensures forall n :: n in r <==> n in ns && n.id != id
    ensures |r| <= |ns|
    decreases |ns|
  {
    if |ns| == 0 then []
    else if ns[0].id == id then DeleteNode(ns[1..], id)
    else [ns[0]] + DeleteNode(ns[1..], id)
  }

  /** `handleNodeValueChange(id, value)`: every node with the id gets the
      value; this component's own edit, over its own node records. */
  function SetValue(ns: seq<ListNode>, id: NodeId, value: string): (r: seq<ListNode>)
    ensures |r| == |ns|
    ensures forall i :: 0 <= i < |ns| ==> r[i].id == ns[i].id && r[i].position == ns[i].position
    ensures forall i :: 0 <= i < |ns| ==> r[i].value == if ns[i].id == id then value else ns[i].value
  {
    seq(|ns|, i requires 0 <= i < |ns| => if ns[i].id == id then ns[i].(value := value) else ns[i])
  }

  // ---------------------------------------------------------------------
  // Layout invariant

  /** The nodes stand left to right in list order. */
  ghost predicate Ordered(ns: seq<ListNode>) {
    forall i, j :: 0 <= i < j < |ns| ==> ns[i].position.x < ns[j].position.x
  }

  /** The nodes stand on one line, left to right in list order. */
  ghost predicate InRow(ns: seq<ListNode>) {
    Ordered(ns)
    && (forall i, j :: 0 <= i < |ns| && 0 <= j < |ns| ==> ns[i].position.y == ns[j].position.y)
  }

  lemma InitInRow(windowWidth: real, windowHeight: real)
    ensures InRow(Init(windowWidth, windowHeight))
  {
  }

  /** Adding at either end keeps the row ordered and level. */
  lemma AddNodeInRow(ns: seq<ListNode>, atStart: bool, home: Point)
    requires InRow(ns)
    ensures InRow(AddNode(ns, atStart, home))
  {
    var r := AddNode(ns, atStart, home);
    if |ns| > 0 {
      if atStart {
        forall i, j | 0 <= i < j < |r|
          ensures r[i].position.x < r[j].position.x
        {
          assert r[j] == ns[j - 1];
          if i > 0 {
            assert r[i] == ns[i - 1];
          }
        }
        forall i, j | 0 <= i < |r| && 0 <= j < |r|
          ensures r[i].position.y == r[j].position.y
        {
          assert i > 0 ==> r[i] == ns[i - 1];
          assert j > 0 ==> r[j] == ns[j - 1];
        }
      } else {
        forall i, j | 0 <= i < j < |r|
          ensures r[i].position.x < r[j].position.x
        {
          assert r[i] == ns[i];
          if j < |ns| {
            assert r[j] == ns[j];
          }
        }
        forall i, j | 0 <= i < |r| && 0 <= j < |r|
          ensures r[i].position.y == r[j].position.y
        {
          assert i < |ns| ==> r[i] == ns[i];
          assert j < |ns| ==> r[j] == ns[j];
        }
      }
    }
  }

  /** Deleting keeps the remaining nodes ordered and level. */
  lemma DeleteNodeInRow(ns: seq<ListNode>, id: NodeId)
    requires InRow(ns)
    ensures InRow(DeleteNode(ns, id))
  {
    DeleteNodeOrdered(ns, id);
    var r := DeleteNode(ns, id);
    forall i, j | 0 <= i < |r| && 0 <= j < |r|
      ensures r[i].position.y == r[j].position.y
    {
      assert r[i] in ns && r[j] in ns;
    }
  }

  lemma {:induction false} DeleteNodeOrdered(ns: seq<ListNode>, id: NodeId)
    requires Ordered(ns)
    ensures Ordered(DeleteNode(ns, id))
    decreases |ns|
  {
    if |ns| > 0 {
      var tail := ns[1..];
      assert Ordered(tail) by {
        forall i, j | 0 <= i < j < |tail|
          ensures tail[i].position.x < tail[j].position.x
        {
          assert tail[i] == ns[i + 1] && tail[j] == ns[j + 1];
        }
      }
      DeleteNodeOrdered(tail, id);
      if ns[0].id != id {
        forall n | n in tail
          ensures ns[0].position.x < n.position.x
        {
          var m :| 0 <= m < |tail| && tail[m] == n;
          assert ns[m + 1] == n;
        }
        OrderedCons(ns[0], DeleteNode(tail, id));
      }
    }
  }

  lemma OrderedCons(a: ListNode, rest: seq<ListNode>)
    requires Ordered(rest) && forall n :: n in rest ==> a.position.x < n.position.x
    ensures Ordered([a] + rest)
  {
    var r := [a] + rest;
    forall i, j | 0 <= i < j < |r|
      ensures r[i].position.x < r[j].position.x
    {
      assert r[j] == rest[j - 1];
      if i > 0 {
        assert r[i] == rest[i - 1];
      }
    }
  }

  lemma SetValueInRow(ns: seq<ListNode>, id: NodeId, value: string)
    requires InRow(ns)
    ensures InRow(SetValue(ns, id, value))
  {
  }

  // ---------------------------------------------------------------------
  // Ids

  /** Ids are not kept unique: delete `node-1` from `[node-1, node-2]` and
      append, and the new node is a second `node-2`. */
  lemma IdReused(home: Point)
    ensures var ns := AddNode(Init(0.0, 0.0), false, home);
            var r := AddNode(DeleteNode(ns, NodeId(1)), false, home);
            |r| == 2 && r[0].id == NodeId(2) && r[1].id == NodeId(2)
  {
    var one := Init(0.0, 0.0);
    var two := AddNode(one, false, home);
    assert two[0].id == NodeId(1) && two[1].id == NodeId(2);
    var left := DeleteNode(two, NodeId(1));
    assert two[1..] == [two[1]];
    assert left == [two[1]];
  }

  /** Deleting the node just appended or prepended gives the old list back
      when its id was not already in use. */
  lemma DeleteUndoesAdd(ns: seq<ListNode>, atStart: bool, home: Point)
    requires forall n :: n in ns ==> n.id != NodeId(|ns| + 1)
    ensures DeleteNode(AddNode(ns, atStart, home), NodeId(|ns| + 1)) == ns
  {
    var r := AddNode(ns, atStart, home);
    DeleteAbsent(ns, NodeId(|ns| + 1));
    if !atStart {
      DeleteAppend(ns, [r[|ns|]], NodeId(|ns| + 1));
      assert r == ns + [r[|ns|]];
    } else {
      assert r == [r[0]] + ns;
    }
  }

  lemma {:induction false} DeleteAbsent(ns: seq<ListNode>, id: NodeId)
    requires forall n :: n in ns ==> n.id != id
    ensures DeleteNode(ns, id) == ns
    decreases |ns|
  {
    if |ns| > 0 {
      assert ns[0] in ns;
      assert forall n :: n in ns[1..] ==> n in ns;
      DeleteAbsent(ns[1..], id);
      assert ns == [ns[0]] + ns[1..];
    }
  }

  lemma {:induction false} DeleteAppend(s: seq<ListNode>, t: seq<ListNode>, id: NodeId)
    ensures DeleteNode(s + t, id) == DeleteNode(s, id) + DeleteNode(t, id)
    decreases |s|
  {
    if |s| > 0 {
      assert (s + t)[1..] == s[1..] + t;
      DeleteAppend(s[1..], t, id);
    } else {
      assert s + t == t;
    }
  }
}
