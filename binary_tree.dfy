/** The binary tree builder: a root, and children added one slot at a
    time. `addChild` rebuilds the node list as the other nodes in their
    order, then the parent with the chosen slot filled, then the new child. */
module BinaryTree {
  import opened Common
  import opened Strings

  /** A tree node as the builder stores it; `text` is the node's label. */
  datatype TreeNode = TreeNode(
    id: NodeId,
    text: string,
    level: nat,
    position: Point,
    isRoot: bool,
    parentId: Option<NodeId>,
    leftChildId: Option<NodeId>,
    rightChildId: Option<NodeId>)

  const LevelHeight: real := 120.0

  /** `handleCreateTree`: the root `node-1`, 25 left of the middle of the
      window and 60 down. */
  function CreateTree(windowWidth: real): (ns: seq<TreeNode>)
    ensures |ns| == 1 && ns[0].isRoot && ns[0].level == 0 && ns[0].id == NodeId(1)
    ensures ns[0].parentId == None && ns[0].leftChildId == None && ns[0].rightChildId == None
  {
    [TreeNode(NodeId(1), "1", 0, Point(windowWidth / 2.0 - 25.0, 60.0), true, None, None, None)]
  }

  // ---------------------------------------------------------------------
  // Layout

  /** `Math.max(200 / (level + 1), 80)`. */
  function Spacing(level: nat): (s: real)
    ensures s >= 80.0 && s >= 200.0 / ((level + 1) as real)
    ensures s == 80.0 || s == 200.0 / ((level + 1) as real)
  {
    var wide := 200.0 / ((level + 1) as real);
    if wide > 80.0 then wide else 80.0
  }

  /** A child is never at level 0, so the spacing is 100 for the children
      of the root and 80 below them. */
  lemma SpacingByLevel(level: nat)
    requires level >= 1
    ensures Spacing(level) == if level == 1 then 100.0 else 80.0
  {
    if level >= 2 {
      assert (level + 1) as real >= 3.0;
      assert 200.0 / ((level + 1) as real) <= 200.0 / 3.0;
    }
  }

  /** `calculateNodePosition(parent, isLeft)`. */
  function ChildPosition(parent: TreeNode, isLeft: bool): Point {
    var s := Spacing(parent.level + 1);
    Point(parent.position.x + (if isLeft then -s else s), parent.position.y + LevelHeight)
  }

  /** A left child sits 100 or 80 to the left of its parent, a right child as
      far to the right, both one level height below. */
  lemma ChildPositionOffsets(parent: TreeNode, isLeft: bool)
    ensures ChildPosition(parent, isLeft).y == parent.position.y + 120.0
    ensures var d := if parent.level == 0 then 100.0 else 80.0;
            ChildPosition(parent, isLeft).x == if isLeft then parent.position.x - d else parent.position.x + d
  {
    SpacingByLevel(parent.level + 1);
  }

  // ---------------------------------------------------------------------
  // Adding a child

  /** `nodes.find(n => n.id === id)`. */
  function FindNode(ns: seq<TreeNode>, id: NodeId): (r: Option<TreeNode>)
    ensures r.Some? ==> r.value in ns && r.value.id == id
    ensures r.None? ==> forall n :: n in ns ==> n.id != id
    decreases |ns|
  {
    if |ns| == 0 then None
    else if ns[0].id == id then Some(ns[0])
    else FindNode(ns[1..], id)
  }

  /** `nodes.filter(n => n.id !== id)`: the tree's own filter over its node
      records, used to drop the parent before re-appending it. */
  function Without(ns: seq<TreeNode>, id: NodeId): (r: seq<TreeNode>)
    ensures forall n :: n in r <==> n in ns && n.id != id
    ensures |r| <= |ns|
    decreases |ns|
  {
    if |ns| == 0 then []
    else if ns[0].id == id then Without(ns[1..], id)
    else [ns[0]] + Without(ns[1..], id)
  }

  ghost predicate UniqueIds(ns: seq<TreeNode>) {
    forall i, j :: 0 <= i < j < |ns| ==> ns[i].id != ns[j].id
  }

  /** With distinct ids, filtering one present id out drops exactly that node. */
  lemma {:induction false} WithoutOne(ns: seq<TreeNode>, k: nat)
    requires UniqueIds(ns) && k < |ns|
    ensures Without(ns, ns[k].id) == ns[..k] + ns[k + 1..]
    decreases |ns|
  {
    var tail := ns[1..];
    if k > 0 {
      assert UniqueIds(tail) by {
        forall i, j | 0 <= i < j < |tail|
          ensures tail[i].id != tail[j].id
        {
          assert tail[i] == ns[i + 1] && tail[j] == ns[j + 1];
        }
      }
      assert tail[k - 1] == ns[k];
      assert ns[0].id != ns[k].id;
      WithoutOne(tail, k - 1);
      assert Without(ns, ns[k].id) == [ns[0]] + Without(tail, ns[k].id);
      DropSplit(ns, k);
    } else {
      forall n | n in tail
        ensures n.id != ns[0].id
      {
        var m :| 0 <= m < |tail| && tail[m] == n;
        assert ns[m + 1] == n;
      }
      WithoutAbsent(tail, ns[0].id);
    }
  }

  /** Dropping slot `k > 0` keeps the head and drops slot `k - 1` of the tail. */
  lemma DropSplit<T>(s: seq<T>, k: nat)
    requires 0 < k < |s|
    ensures s[..k] + s[k + 1..] == [s[0]] + (s[1..][..k - 1] + s[1..][k..])
  {
    assert s[1..][..k - 1] == s[1..k];
    assert s[1..][k..] == s[k + 1..];
    assert s[..k] == [s[0]] + s[1..k];
  }

  lemma {:induction false} WithoutAbsent(ns: seq<TreeNode>, id: NodeId)
    requires forall n :: n in ns ==> n.id != id
    ensures Without(ns, id) == ns
    decreases |ns|
  {
    if |ns| > 0 {
      var tail := ns[1..];
      assert ns[0] in ns;
      forall n | n in tail
        ensures n.id != id
      {
        var m :| 0 <= m < |tail| && tail[m] == n;
        assert ns[m + 1] == n;
      }
      WithoutAbsent(tail, id);
      assert ns == [ns[0]] + tail;
    }
  }

  /** `addChild(parentId, isLeft)`: nothing happens when no node has the
      parent's id or the chosen slot is taken; otherwise the parent gets the
      new id in that slot and the child `node-(n+1)` is appended. */
  function AddChild(ns: seq<TreeNode>, parentId: NodeId, isLeft: bool): (r: seq<TreeNode>)
    ensures FindNode(ns, parentId).None? ==> r == ns
    ensures FindNode(ns, parentId).Some? && Slot(FindNode(ns, parentId).value, isLeft).Some? ==> r == ns
  {
    match FindNode(ns, parentId)
    case None => ns
    case Some(parent) =>
      if isLeft && parent.leftChildId.Some? then ns
      else if !isLeft && parent.rightChildId.Some? then ns
      else
        var newNode := NewChild(ns, parent, isLeft);
        Without(ns, parentId) + [Fill(parent, isLeft, newNode.id), newNode]
  }

  function Slot(n: TreeNode, isLeft: bool): Option<NodeId> {
    if isLeft then n.leftChildId else n.rightChildId
  }

  function Fill(n: TreeNode, isLeft: bool, child: NodeId): TreeNode {
    if isLeft then n.(leftChildId := Some(child)) else n.(rightChildId := Some(child))
  }

  function NewChild(ns: seq<TreeNode>, parent: TreeNode, isLeft: bool): TreeNode {
    TreeNode(NodeId(|ns| + 1), NatToString(|ns| + 1), parent.level + 1, ChildPosition(parent, isLeft),
             false, Some(parent.id), None, None)
  }

  /** A successful `addChild` on distinct ids: one node more; the others keep
      their order; the parent differs only in the chosen slot, which now
      names the child; the child is one level down, has the parent and no
      children. */
  lemma AddChildShape(ns: seq<TreeNode>, k: nat, isLeft: bool)
    requires UniqueIds(ns) && k < |ns| && Slot(ns[k], isLeft).None?
    ensures var r := AddChild(ns, ns[k].id, isLeft);
            |r| == |ns| + 1 && r[..|ns| - 1] == ns[..k] + ns[k + 1..]
            && r[|ns| - 1] == Fill(ns[k], isLeft, NodeId(|ns| + 1))
            && r[|ns|].id == NodeId(|ns| + 1) && r[|ns|].level == ns[k].level + 1
            && r[|ns|].parentId == Some(ns[k].id) && !r[|ns|].isRoot
            && r[|ns|].leftChildId == None && r[|ns|].rightChildId == None
            && r[|ns|].position == ChildPosition(ns[k], isLeft)
  {
    var parent := ns[k];
    FindUnique(ns, k);
    WithoutOne(ns, k);
  }

  lemma {:induction false} FindUnique(ns: seq<TreeNode>, k: nat)
    requires UniqueIds(ns) && k < |ns|
    ensures FindNode(ns, ns[k].id) == Some(ns[k])
    decreases |ns|
  {
    if k > 0 {
      assert UniqueIds(ns[1..]);
      FindUnique(ns[1..], k - 1);
    }
  }

  // ---------------------------------------------------------------------
  // The tree invariant

  /** Ids are `node-1` to `node-n`, each once, and a node's label is its
      number. */
  ghost predicate Numbered(ns: seq<TreeNode>) {
    UniqueIds(ns)
    && forall n :: n in ns ==> 1 <= n.id.n <= |ns| && n.text == NatToString(n.id.n)
  }

  ghost function IdSet(ns: seq<TreeNode>): set<NodeId> {
    set n | n in ns :: n.id
  }

  /** The root is `node-1` at level 0 and is the only node without a parent. */
  ghost predicate RootsOk(ns: seq<TreeNode>) {
    (forall n :: n in ns ==> (n.isRoot <==> n.parentId.None?))
    && (forall n :: n in ns && n.isRoot ==> n.id == NodeId(1) && n.level == 0)
  }

  ghost predicate ParentsExist(ns: seq<TreeNode>) {
    forall n :: n in ns && n.parentId.Some? ==> n.parentId.value in IdSet(ns)
  }

  /** A parent is one level up and names its child in exactly one slot. */
  ghost predicate ParentsName(ns: seq<TreeNode>) {
    forall n, p :: n in ns && p in ns && n.parentId == Some(p.id) ==>
      n.level == p.level + 1 && ((p.leftChildId == Some(n.id)) != (p.rightChildId == Some(n.id)))
  }

  ghost predicate SlotsExist(ns: seq<TreeNode>) {
    forall p, b :: p in ns && Slot(p, b).Some? ==> Slot(p, b).value in IdSet(ns)
  }

  /** A filled slot names a node whose parent is the slot's owner. */
  ghost predicate SlotsBack(ns: seq<TreeNode>) {
    forall p, n, b :: p in ns && n in ns && Slot(p, b) == Some(n.id) ==> n.parentId == Some(p.id)
  }

  ghost predicate Linked(ns: seq<TreeNode>) {
    RootsOk(ns) && ParentsExist(ns) && ParentsName(ns) && SlotsExist(ns) && SlotsBack(ns)
  }

  /** The tree invariant: ids are `node-1` to `node-n`, each once, labels
      are the ids' numbers, and parent and child links agree. */
  ghost predicate TreeValid(ns: seq<TreeNode>) {
    Numbered(ns) && Linked(ns)
  }

  lemma CreateTreeValid(windowWidth: real)
    ensures TreeValid(CreateTree(windowWidth))
  {
    var ns := CreateTree(windowWidth);
    assert NatToString(1) == "1";
    assert forall n :: n in ns ==> n == ns[0];
  }

  /** Every `addChild` keeps the tree invariant. */
  lemma AddChildKeepsTree(ns: seq<TreeNode>, parentId: NodeId, isLeft: bool)
    requires TreeValid(ns)
    ensures TreeValid(AddChild(ns, parentId, isLeft))
  {
    var found := FindNode(ns, parentId);
    if found.Some? && Slot(found.value, isLeft).None? {
      var k :| 0 <= k < |ns| && ns[k] == found.value;
      AddChildAt(ns, k, isLeft);
    }
  }

  lemma AddChildAt(ns: seq<TreeNode>, k: nat, isLeft: bool)
    requires TreeValid(ns) && k < |ns| && Slot(ns[k], isLeft).None?
    ensures TreeValid(AddChild(ns, ns[k].id, isLeft))
  {
    var parent := ns[k];
    var child := NewChild(ns, parent, isLeft);
    var filled := Fill(parent, isLeft, child.id);
    var rest := ns[..k] + ns[k + 1..];
    FindUnique(ns, k);
    WithoutOne(ns, k);
    var r := rest + [filled, child];
    assert AddChild(ns, parent.id, isLeft) == r;
    AddKeepsNumbered(ns, k, rest, filled, child);
    RestMembers(ns, k, rest, filled, child);
    FreshChild(ns, child.id);
    AddedIds(ns, r, parent, filled, child);
    AddKeepsRoots(ns, r, parent, filled, child);
    AddKeepsParentsName(ns, r, parent, isLeft, filled, child);
    AddKeepsSlotsBack(ns, r, parent, isLeft, filled, child);
  }

  lemma RestMembers(ns: seq<TreeNode>, k: nat, rest: seq<TreeNode>, filled: TreeNode, child: TreeNode)
    requires UniqueIds(ns) && k < |ns| && rest == ns[..k] + ns[k + 1..]
    ensures forall n :: n in rest + [filled, child] <==> (n in ns && n.id != ns[k].id) || n == filled || n == child
  {
    WithoutOne(ns, k);
  }

  lemma FreshChild(ns: seq<TreeNode>, id: NodeId)
    requires Numbered(ns) && id.n == |ns| + 1
    ensures id !in IdSet(ns)
  {
    forall m | m in ns
      ensures m.id != id
    {
    }
  }

  lemma AddKeepsNumbered(ns: seq<TreeNode>, k: nat, rest: seq<TreeNode>, filled: TreeNode, child: TreeNode)
    requires Numbered(ns) && k < |ns| && rest == ns[..k] + ns[k + 1..]
    requires filled.id == ns[k].id && filled.text == ns[k].text
    requires child.id == NodeId(|ns| + 1) && child.text == NatToString(|ns| + 1)
    ensures Numbered(rest + [filled, child])
  {
    UniqueWithout(ns, k);
    RestFromNs(ns, k, rest);
    UniqueAppend(rest, filled, child);
    RangeAppend(ns, rest, filled, child);
  }

  lemma RestFromNs(ns: seq<TreeNode>, k: nat, rest: seq<TreeNode>)
    requires UniqueIds(ns) && k < |ns| && rest == ns[..k] + ns[k + 1..]
    ensures forall n :: n in rest ==> n in ns && n.id != ns[k].id
  {
    forall n | n in rest
      ensures n in ns && n.id != ns[k].id
    {
      var j :| 0 <= j < |rest| && rest[j] == n;
      var j' := if j < k then j else j + 1;
      assert rest[j] == ns[j'];
    }
  }

  lemma RangeAppend(ns: seq<TreeNode>, rest: seq<TreeNode>, filled: TreeNode, child: TreeNode)
    requires Numbered(ns) && |rest| + 1 == |ns| && (forall n :: n in rest ==> n in ns)
    requires filled in ns || (exists m :: m in ns && m.id == filled.id && m.text == filled.text)
    requires child.id == NodeId(|ns| + 1) && child.text == NatToString(|ns| + 1)
    ensures forall n :: n in rest + [filled, child] ==> 1 <= n.id.n <= |ns| + 1 && n.text == NatToString(n.id.n)
  {
  }

  lemma UniqueWithout(ns: seq<TreeNode>, k: nat)
    requires UniqueIds(ns) && k < |ns|
    ensures UniqueIds(ns[..k] + ns[k + 1..])
  {
    var r := ns[..k] + ns[k + 1..];
    forall i, j | 0 <= i < j < |r|
      ensures r[i].id != r[j].id
    {
      var i' := if i < k then i else i + 1;
      var j' := if j < k then j else j + 1;
      assert r[i] == ns[i'] && r[j] == ns[j'];
    }
  }

  lemma UniqueAppend(rest: seq<TreeNode>, a: TreeNode, b: TreeNode)
    requires UniqueIds(rest) && a.id != b.id
    requires forall n :: n in rest ==> n.id != a.id && n.id != b.id
    ensures UniqueIds(rest + [a, b])
  {
    var r := rest + [a, b];
    forall i, j | 0 <= i < j < |r|
      ensures r[i].id != r[j].id
    {
      if j >= |rest| {
        assert r[i] in rest || r[i] == a;
      }
    }
  }

  /** The facts every part of the link proof shares. */
  ghost predicate AddStep(ns: seq<TreeNode>, r: seq<TreeNode>, parent: TreeNode, filled: TreeNode, child: TreeNode) {
    parent in ns
    && (forall n :: n in r <==> (n in ns && n.id != parent.id) || n == filled || n == child)
    && filled.id == parent.id && filled.isRoot == parent.isRoot && filled.parentId == parent.parentId
    && filled.level == parent.level
    && child.parentId == Some(parent.id) && !child.isRoot && child.level == parent.level + 1
    && child.leftChildId == None && child.rightChildId == None
    && child.id !in IdSet(ns)
  }

  lemma AddedIds(ns: seq<TreeNode>, r: seq<TreeNode>, parent: TreeNode, filled: TreeNode, child: TreeNode)
    requires AddStep(ns, r, parent, filled, child)
    requires ParentsExist(ns) && SlotsExist(ns)
    requires Slot(filled, true) == Slot(parent, true) || Slot(filled, true) == Some(child.id)
    requires Slot(filled, false) == Slot(parent, false) || Slot(filled, false) == Some(child.id)
    ensures IdSet(r) == IdSet(ns) + {child.id}
    ensures ParentsExist(r) && SlotsExist(r)
  {
    forall n | n in ns
      ensures n.id in IdSet(r)
    {
      if n.id == parent.id {
        assert filled in r;
      } else {
        assert n in r;
      }
    }
    assert child in r;
  }

  lemma AddKeepsRoots(ns: seq<TreeNode>, r: seq<TreeNode>, parent: TreeNode, filled: TreeNode, child: TreeNode)
    requires AddStep(ns, r, parent, filled, child) && RootsOk(ns)
    ensures RootsOk(r)
  {
  }

  lemma AddKeepsParentsName(ns: seq<TreeNode>, r: seq<TreeNode>, parent: TreeNode, isLeft: bool, filled: TreeNode, child: TreeNode)
    requires AddStep(ns, r, parent, filled, child) && ParentsName(ns) && ParentsExist(ns) && SlotsExist(ns)
    requires Slot(parent, isLeft).None? && filled == Fill(parent, isLeft, child.id)
    ensures ParentsName(r)
  {
    forall n, p | n in r && p in r && n.parentId == Some(p.id)
      ensures n.level == p.level + 1 && ((p.leftChildId == Some(n.id)) != (p.rightChildId == Some(n.id)))
    {
      var p0 := if p == filled then parent else p;
      if n == child {
        assert parent.id in IdSet(ns);
        assert p == filled;
        if Slot(parent, !isLeft).Some? {
          assert Slot(parent, !isLeft).value in IdSet(ns);
        }
      } else {
        var n0 := if n == filled then parent else n;
        assert n0 in ns && n0.id == n.id && n0.parentId == n.parentId && n0.level == n.level;
        assert n.id != child.id;
        assert p != child;
        assert p0 in ns && p0.id == p.id;
      }
    }
  }

  lemma AddKeepsSlotsBack(ns: seq<TreeNode>, r: seq<TreeNode>, parent: TreeNode, isLeft: bool, filled: TreeNode, child: TreeNode)
    requires AddStep(ns, r, parent, filled, child) && SlotsBack(ns) && SlotsExist(ns)
    requires Slot(parent, isLeft).None? && filled == Fill(parent, isLeft, child.id)
    ensures SlotsBack(r)
  {
    forall p, n, b | p in r && n in r && Slot(p, b) == Some(n.id)
      ensures n.parentId == Some(p.id)
    {
      var p0 := if p == filled then parent else p;
      assert p0 in ns && p0.id == p.id;
      assert Slot(p, false) == Slot(p0, false) || Slot(p, false) == Some(child.id);
      if p == filled && b == isLeft {
        assert n.id == child.id;
        assert n == child;
      } else {
        assert Slot(p0, b) == Slot(p, b);
        assert Slot(p0, b).value in IdSet(ns);
        var n0 := if n == filled then parent else n;
        assert n0 in ns && n0.id == n.id && n0.parentId == n.parentId;
      }
    }
  }
}
