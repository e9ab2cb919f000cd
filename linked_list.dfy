/** The singly linked list editor: a row of labelled nodes joined by arrows.
    A node can be inserted to the right or to the left of any node, deleted,
    or relabelled, and the view zooms in fixed steps. The list itself is a
    sequence: the arrows are implied by the order. */
module LinkedList {
  import opened Common
  import opened Viewport

  /** A list node. Only the first node is created with a position; nodes
      added later have none and are placed by the page layout. */
  datatype ListNode = ListNode(id: NodeId, text: string, position: Option<Point>)

  // ---------------------------------------------------------------------
  // The JavaScript array operations the editor uses

  /** `nodes.findIndex(n => n.id === id)`: the first index holding the id,
      or -1. */
  function FindIndex(ns: seq<ListNode>, id: NodeId): (i: int)
    ensures -1 <= i < |ns|
    ensures i == -1 <==> forall n :: n in ns ==> n.id != id
    ensures i >= 0 ==> ns[i].id == id && forall k :: 0 <= k < i ==> ns[k].id != id
    decreases |ns|
  {
    if |ns| == 0 then -1
    else if ns[0].id == id then 0
    else
      var i := FindIndex(ns[1..], id);
      if i == -1 then -1 else i + 1
  }

  /** Where `splice(start, 0, x)` inserts: a negative start counts from the
      end, and the result is clamped to the array. */
  function SpliceStart(len: nat, start: int): (k: nat)
    ensures k <= len
    ensures 0 <= start <= len ==> k == start
    ensures start > len ==> k == len
    ensures -(len as int) <= start < 0 ==> k == len + start
    ensures start < -(len as int) ==> k == 0
  {
    if start < 0 then (if len + start < 0 then 0 else len + start)
    else if start > len then len
    else start
  }

  /** The list `splice(start, 0, x)` leaves behind. */
  function Spliced(s: seq<ListNode>, start: int, x: ListNode): (r: seq<ListNode>)
    ensures |r| == |s| + 1
    ensures r[SpliceStart(|s|, start)] == x
  {
    var k := SpliceStart(|s|, start);
    s[..k] + [x] + s[k..]
  }

  /** `nodes.filter(n => n.id !== id)`: this component's own delete over its
      own node records (the tree and the doubly linked list filter theirs). */
  function Remove(ns: seq<ListNode>, id: NodeId): (r: seq<ListNode>)
    ensures forall n :: n in r <==> n in ns && n.id != id
    ensures |r| <= |ns|
    decreases |ns|
  {
    if |ns| == 0 then []
    else if ns[0].id == id then Remove(ns[1..], id)
    else [ns[0]] + Remove(ns[1..], id)
  }

  /** `nodes.map(n => n.id === id ? { ...n, label: text } : n)`: this
      component's own label edit (the doubly linked list edits values). */
  function Relabel(ns: seq<ListNode>, id: NodeId, text: string): (r: seq<ListNode>)
    ensures |r| == |ns|
    ensures forall i :: 0 <= i < |ns| ==> r[i].id == ns[i].id && r[i].position == ns[i].position
    ensures forall i :: 0 <= i < |ns| ==> r[i].text == if ns[i].id == id then text else ns[i].text
  {
    seq(|ns|, i requires 0 <= i < |ns| => if ns[i].id == id then ns[i].(text := text) else ns[i])
  }

  /** The index `handleAddNode` passes to `splice`: one past the source to
      insert on its right, the source's own index otherwise. */
  function InsertIndex(ns: seq<ListNode>, sourceId: NodeId, toRight: bool): int {
    var k := FindIndex(ns, sourceId);
    if toRight then k + 1 else k
  }

  /** The list after `handleAddNode(sourceId, direction)`. */
  function AddNext(ns: seq<ListNode>, sourceId: NodeId, toRight: bool, freshId: NodeId): seq<ListNode> {
    Spliced(ns, InsertIndex(ns, sourceId, toRight), ListNode(freshId, "", None))
  }

  // ---------------------------------------------------------------------
  // Properties of insertion and deletion

  /** With a known source at index `k`, the new node lands right after it
      (to the right) or right before it (to the left), and the rest of the
      list keeps its order around it. */
  lemma AddNextFound(ns: seq<ListNode>, sourceId: NodeId, toRight: bool, freshId: NodeId, k: nat)
    requires k < |ns| && k == FindIndex(ns, sourceId)
    ensures var r := AddNext(ns, sourceId, toRight, freshId);
            var at := if toRight then k + 1 else k;
            |r| == |ns| + 1 && r[at] == ListNode(freshId, "", None)
            && r[..at] == ns[..at] && r[at + 1..] == ns[at..]
            && (toRight ==> r[k] == ns[k]) && (!toRight ==> r[k + 1] == ns[k])
  {
    var r := AddNext(ns, sourceId, toRight, freshId);
    var at := if toRight then k + 1 else k;
    assert SpliceStart(|ns|, at) == at;
    assert r == ns[..at] + [ListNode(freshId, "", None)] + ns[at..];
    if toRight {
      assert r[k] == ns[..at][k];
    } else {
      assert r[k + 1] == ns[at..][0];
    }
  }

  /** With an unknown source, the right-hand insert goes to the front and
      the left-hand insert, being `splice(-1, …)`, goes before the last
      node (or to the front of an empty list). */
  lemma AddNextMissing(ns: seq<ListNode>, sourceId: NodeId, toRight: bool, freshId: NodeId)
    requires forall n :: n in ns ==> n.id != sourceId
    ensures var r := AddNext(ns, sourceId, toRight, freshId);
            var at := if toRight || |ns| == 0 then 0 else |ns| - 1;
            r == ns[..at] + [ListNode(freshId, "", None)] + ns[at..]
  {
  }

  /** Deleting keeps the other nodes in their order: filtering a list cut
      anywhere is filtering the two parts and joining them. */
  lemma {:induction false} RemoveAppend(s: seq<ListNode>, t: seq<ListNode>, id: NodeId)
    ensures Remove(s + t, id) == Remove(s, id) + Remove(t, id)
    decreases |s|
  {
    if |s| > 0 {
      assert (s + t)[1..] == s[1..] + t;
      RemoveAppend(s[1..], t, id);
    } else {
      assert s + t == t;
    }
  }

  lemma {:induction false} RemoveAbsent(s: seq<ListNode>, id: NodeId)
    requires forall n :: n in s ==> n.id != id
    ensures Remove(s, id) == s
    decreases |s|
  {
    if |s| > 0 {
      assert s[0] in s;
      assert forall n :: n in s[1..] ==> n in s;
      RemoveAbsent(s[1..], id);
      assert s == [s[0]] + s[1..];
    }
  }

  /** Deleting a node just inserted under a fresh id gives the old list
      back: the new node is the only one that changed places. */
  lemma DeleteUndoesAdd(ns: seq<ListNode>, sourceId: NodeId, toRight: bool, freshId: NodeId)
    requires forall n :: n in ns ==> n.id != freshId
    ensures Remove(AddNext(ns, sourceId, toRight, freshId), freshId) == ns
  {
    var k := SpliceStart(|ns|, InsertIndex(ns, sourceId, toRight));
    AbsentSplit(ns, k, freshId);
    RemoveInserted(ns[..k], ns[k..], ListNode(freshId, "", None));
    assert ns[..k] + ns[k..] == ns;
  }

  lemma AbsentSplit(ns: seq<ListNode>, k: nat, id: NodeId)
    requires k <= |ns| && forall n :: n in ns ==> n.id != id
    ensures forall n :: n in ns[..k] ==> n.id != id
    ensures forall n :: n in ns[k..] ==> n.id != id
  {
    forall n | n in ns[..k]
      ensures n.id != id
    {
      var j :| 0 <= j < k && ns[..k][j] == n;
      assert ns[j] == n;
    }
    forall n | n in ns[k..]
      ensures n.id != id
    {
      var j :| 0 <= j < |ns| - k && ns[k..][j] == n;
      assert ns[k + j] == n;
    }
  }

  lemma RemoveInserted(a: seq<ListNode>, b: seq<ListNode>, x: ListNode)
    requires forall n :: n in a ==> n.id != x.id
    requires forall n :: n in b ==> n.id != x.id
    ensures Remove(a + [x] + b, x.id) == a + b
  {
    RemoveAppend(a + [x], b, x.id);
    RemoveAppend(a, [x], x.id);
    RemoveAbsent(a, x.id);
    RemoveAbsent(b, x.id);
    assert Remove([x], x.id) == [];
    assert a + [] == a;
  }

  /** Relabelling a node to the label it has changes nothing. */
  lemma RelabelSame(ns: seq<ListNode>, i: nat)
    requires i < |ns| && forall k :: 0 <= k < |ns| && ns[k].id == ns[i].id ==> ns[k].text == ns[i].text
    ensures Relabel(ns, ns[i].id, ns[i].text) == ns
  {
    var r := Relabel(ns, ns[i].id, ns[i].text);
    assert forall k :: 0 <= k < |ns| ==> r[k] == ns[k];
  }

  /** The connectors drawn: each node but the last is followed by one. */
  function Arrows(ns: seq<ListNode>): (n: nat)
    ensures n == if |ns| == 0 then 0 else |ns| - 1
    decreases |ns|
  {
    if |ns| <= 1 then 0 else 1 + Arrows(ns[1..])
  }

  // ---------------------------------------------------------------------
  // The editor

  class LinkedListVisualizer {
    var nodes: seq<ListNode>
    var scale: real

    /** The first render: one unlabelled node in the middle of the window,
        at scale 1. */
    constructor(freshId: NodeId, windowWidth: real, windowHeight: real)
      ensures nodes == [ListNode(freshId, "", Some(Point(windowWidth / 2.0 - 20.0, windowHeight / 2.0 - 20.0)))]
      ensures scale == 1.0
    {
      nodes := [ListNode(freshId, "", Some(Point(windowWidth / 2.0 - 20.0, windowHeight / 2.0 - 20.0)))];
      scale := 1.0;
    }

    /** `handleAddNode`: copies the list and splices the new node in. */
    method HandleAddNode(sourceId: NodeId, toRight: bool, freshId: NodeId)
      modifies this
      ensures nodes == AddNext(old(nodes), sourceId, toRight, freshId)
      ensures scale == old(scale)
    {
      var sourceIndex := FindIndex(nodes, sourceId);
      var insertIndex := if toRight then sourceIndex + 1 else sourceIndex;
      nodes := Splice(nodes, insertIndex, ListNode(freshId, "", None));
    }

    /** The filter step of `handleDeleteNode`. */
    method HandleDeleteNode(id: NodeId)
      modifies this
      ensures nodes == Remove(old(nodes), id)
      ensures scale == old(scale)
    {
      nodes := Remove(nodes, id);
    }

    method HandleLabelChange(id: NodeId, text: string)
      modifies this
      ensures nodes == Relabel(old(nodes), id, text)
      ensures scale == old(scale)
    {
      nodes := Relabel(nodes, id, text);
    }

    method HandleZoomIn()
      modifies this
      ensures scale == ZoomIn(old(scale)) && nodes == old(nodes)
    {
      scale := ZoomIn(scale);
    }

    method HandleZoomOut()
      modifies this
      ensures scale == ZoomOut(old(scale)) && nodes == old(nodes)
    {
      scale := ZoomOut(scale);
    }
  }

  /** `splice(start, 0, x)` on a copy of `s`: the elements from the insertion
      point on move one place up to make room. */
  method Splice(s: seq<ListNode>, start: int, x: ListNode) returns (r: seq<ListNode>)
    ensures r == Spliced(s, start, x)
  {
    var k := SpliceStart(|s|, start);
    var a := new ListNode[|s| + 1](_ => x);
    for i := 0 to |s|
      invariant forall j :: 0 <= j < i ==> a[j] == s[j]
    {
      a[i] := s[i];
    }
    var i := |s|;
    while i > k
      invariant k <= i <= |s|
      invariant forall j :: 0 <= j < i ==> a[j] == s[j]
      invariant forall j :: i < j <= |s| ==> a[j] == s[j - 1]
    {
      a[i] := a[i - 1];
      i := i - 1;
    }
    a[k] := x;
    forall j | 0 <= j < a.Length
      ensures a[j] == Spliced(s, start, x)[j]
    {
      SplicedAt(s, start, x, j);
    }
    r := a[..];
  }

  lemma SplicedAt(s: seq<ListNode>, start: int, x: ListNode, j: nat)
    requires j <= |s|
    ensures var k := SpliceStart(|s|, start);
            Spliced(s, start, x)[j] == if j < k then s[j] else if j == k then x else s[j - 1]
  {
    var k := SpliceStart(|s|, start);
    if j < k {
      assert Spliced(s, start, x)[j] == s[..k][j];
    } else if j > k {
      assert Spliced(s, start, x)[j] == s[k..][j - k - 1];
    }
  }

  /** The scale after a run of clicks on the zoom buttons, `true` for the
      zoom-in button and `false` for the zoom-out button. */
  function Zooms(scale: real, clicks: seq<bool>): real
    decreases |clicks|
  {
    if |clicks| == 0 then scale
    else Zooms(if clicks[0] then ZoomIn(scale) else ZoomOut(scale), clicks[1..])
  }

  /** The scale stays within [0.1, 4] under any run of zoom clicks. */
  lemma {:induction false} ZoomStaysInRange(scale: real, clicks: seq<bool>)
    requires MinScale <= scale <= MaxScale
    ensures MinScale <= Zooms(scale, clicks) <= MaxScale
    decreases |clicks|
  {
    if |clicks| > 0 {
      ZoomStaysInRange(if clicks[0] then ZoomIn(scale) else ZoomOut(scale), clicks[1..]);
    }
  }
}
