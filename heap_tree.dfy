/** The node-based heap visualizer: a binary heap stored as a list of node
    records whose labels are the keys. Insertion sifts up and root deletion
    sifts down (`heapify`), both by exchanging labels only, so each node keeps
    its identifier and its slot on the canvas. */
module HeapTree {
  import opened Common
  import opened Strings
  import opened Heaps

  datatype HeapType = Max | Min

  /** A heap node: `node-<k>` at index `k - 1`, its label as a number (`key`; written
      with `toString`, read back with `parseInt`) and its canvas position. */
  datatype HeapNode = HeapNode(id: NodeId, key: int, position: Point)

  /** What `handleInsert` did with the input box. */
  datatype InsertOutcome = Ignored | Alerted | Inserted(value: int)

  const LevelHeight: int := 120

  function IsMin(t: HeapType): bool {
    t == Min
  }

  function Labels(ns: seq<HeapNode>): (ls: seq<int>)
    ensures |ls| == |ns|
    ensures forall k :: 0 <= k < |ns| ==> ls[k] == ns[k].key
  {
    seq(|ns|, k requires 0 <= k < |ns| => ns[k].key)
  }

  // ---------------------------------------------------------------------
  // Layout

  /** `calculateNodePosition`: the level of index `i` is `floor(log2(i+1))`,
      its offset within the level is `i - 2^level + 1`; the level's nodes are
      spaced evenly across the window and levels are 120 apart from y = 100. */
  function HeapPosition(i: nat, width: real): Point {
    var level := Log2(i + 1);
    var offset := i - Pow2(level) + 1;
    Point(Spread(offset + 1, Pow2(level), width), (level * LevelHeight + 100) as real)
  }

  /** The `k`-th of `total` points spaced evenly across `width`. */
  function Spread(k: int, total: nat, width: real): real {
    k as real * (width / ((total + 1) as real))
  }

  /** The offset lies inside its level, the row is 120 per level below 100,
      and on a window of positive width every node is strictly inside it. */
  lemma HeapPositionInLevel(i: nat, width: real)
    ensures 0 <= i - Pow2(Log2(i + 1)) + 1 < Pow2(Log2(i + 1))
    ensures HeapPosition(i, width).y == (120 * Log2(i + 1) + 100) as real
    ensures width > 0.0 ==> 0.0 < HeapPosition(i, width).x < width
  {
    var level := Log2(i + 1);
    Log2Bounds(i + 1);
    var offset := i - Pow2(level) + 1;
    var total := Pow2(level);
    if width > 0.0 {
      InsideWindow(offset + 1, total, width);
    }
  }

  /** The `k`-th of `total` evenly spaced points lies strictly inside the window. */
  lemma InsideWindow(k: int, total: nat, width: real)
    requires 1 <= k <= total && width > 0.0
    ensures 0.0 < Spread(k, total, width) < width
  {
    var spacing := width / ((total + 1) as real);
    var kr := k as real;
    var tr := total as real;
    assert spacing > 0.0;
    assert spacing * (tr + 1.0) == width;
    ScaleStrict(0.0, kr, spacing);
    ScaleStrict(kr, tr + 1.0, spacing);
  }

  lemma ScaleStrict(a: real, b: real, c: real)
    requires a < b && c > 0.0
    ensures a * c < b * c
  {
    assert (b - a) * c > 0.0;
  }

  /** Within one level, nodes further right in the array sit further right. */
  lemma HeapPositionOrdered(i: nat, j: nat, width: real)
    requires i < j && Log2(i + 1) == Log2(j + 1) && width > 0.0
    ensures HeapPosition(i, width).x < HeapPosition(j, width).x
  {
    var total := Pow2(Log2(i + 1));
    var spacing := width / ((total + 1) as real);
    assert spacing > 0.0;
    ScaleStrict((i - total + 1 + 1) as real, (j - total + 1 + 1) as real, spacing);
    assert Spread(i - total + 1 + 1, total, width) < Spread(j - total + 1 + 1, total, width);
  }

  /** The root that the visualizer starts with, at the middle of the window
      and y = 100, sits exactly where the layout puts index 0. */
  lemma RootPosition(width: real)
    ensures HeapPosition(0, width) == Point(width / 2.0, 100.0)
  {
  }

  /** The layout invariant: the node at index `k` is `node-(k+1)` and sits at
      `calculateNodePosition(k)`. */
  ghost predicate Laid(ns: seq<HeapNode>, width: real) {
    forall k :: 0 <= k < |ns| ==> ns[k].id == NodeId(k + 1) && ns[k].position == HeapPosition(k, width)
  }

  /** Only labels differ between `ns` and `ms`. */
  ghost predicate SameSlots(ns: seq<HeapNode>, ms: seq<HeapNode>) {
    |ns| == |ms| && forall k :: 0 <= k < |ns| ==> ns[k].id == ms[k].id && ns[k].position == ms[k].position
  }

  /** Switching the mode does not reorder: a max-heap `[50, 10]` stays as it
      is and is not a min-heap. */
  lemma SwitchKeepsOrderExample()
    ensures IsHeap([50, 10], false) && !IsHeap([50, 10], true)
  {
    assert BelowParent([50, 10], 1, false);
    assert !BelowParent([50, 10], 1, true);
  }

  lemma LabelsSnoc(ns: seq<HeapNode>, n: HeapNode)
    ensures Labels(ns + [n]) == Labels(ns) + [n.key]
  {
  }

  /** Exchanging the keys of slots `i` and `j` swaps the labels. */
  lemma LabelsExchange(before: seq<HeapNode>, after: seq<HeapNode>, i: nat, j: nat)
    requires i < |before| && j < |before| && i != j
    requires after == before[i := before[i].(key := before[j].key)][j := before[j].(key := before[i].key)]
    ensures Labels(after) == Swap(Labels(before), i, j)
    ensures SameSlots(after, before)
  {
  }

  // ---------------------------------------------------------------------
  // The visualizer's state and handlers

  class HeapVisualizer {
    var nodes: seq<HeapNode>
    var heapType: HeapType
    var inputValue: string
    /** `window.innerWidth`, read once here; the page reads it again on
        every layout, so window resizes are not modelled. */
    const windowWidth: real

    ghost predicate Valid()
      reads this
    {
      Laid(nodes, windowWidth)
    }

    /** The state after the mount effect: one root `node-1` labelled 50, in max mode. */
    constructor (width: real)
      ensures Valid()
      ensures windowWidth == width && heapType == Max && inputValue == ""
      ensures nodes == [HeapNode(NodeId(1), 50, Point(width / 2.0, 100.0))]
    {
      windowWidth := width;
      heapType := Max;
      inputValue := "";
      nodes := [HeapNode(NodeId(1), 50, Point(width / 2.0, 100.0))];
      new;
      RootPosition(width);
    }

    method HandleInputChange(typed: string)
      modifies this
      ensures inputValue == typed && nodes == old(nodes) && heapType == old(heapType)
    {
      inputValue := typed;
    }

    /** The mode button: flips the mode and leaves the nodes as they are. */
    method SwitchHeapType()
      modifies this
      ensures heapType == (if old(heapType) == Max then Min else Max)
      ensures nodes == old(nodes) && inputValue == old(inputValue)
    {
      heapType := if heapType == Max then Min else Max;
    }

    /** `heapify`: moves the label at `i` down within the first `heapSize`
        slots, exchanging it with the child that must sit above it. */
    method Heapify(a: array<HeapNode>, i: nat, heapSize: nat)
      requires heapSize <= a.Length
      modifies a
      ensures Labels(a[..]) == SiftDown(Labels(old(a[..])), i, heapSize, IsMin(heapType))
      ensures SameSlots(a[..], old(a[..]))
      decreases heapSize - i
    {
      var largest := PickChild(a, i, heapSize);
      if largest != i {
        ExchangeKeys(a, i, largest);
        Heapify(a, largest, heapSize);
      }
    }

    /** The comparisons of `heapify`: the index among `i` and its children
        inside the heap whose label must sit on top, preferring `i`, then
        the left child. */
    method PickChild(a: array<HeapNode>, i: nat, heapSize: nat) returns (largest: nat)
      requires heapSize <= a.Length
      ensures largest == Best(Labels(a[..]), i, heapSize, IsMin(heapType))
    {
      var left := 2 * i + 1;
      var right := 2 * i + 2;
      largest := i;
      if heapType == Max {
        if left < heapSize && a[left].key > a[largest].key {
          largest := left;
        }
        if right < heapSize && a[right].key > a[largest].key {
          largest := right;
        }
      } else {
        if left < heapSize && a[left].key < a[largest].key {
          largest := left;
        }
        if right < heapSize && a[right].key < a[largest].key {
          largest := right;
        }
      }
    }

    /** The label exchange of `heapify`: the two slots trade keys only. */
    method ExchangeKeys(a: array<HeapNode>, i: nat, j: nat)
      requires i < a.Length && j < a.Length && i != j
      modifies a
      ensures Labels(a[..]) == Swap(Labels(old(a[..])), i, j)
      ensures SameSlots(a[..], old(a[..]))
    {
      ghost var before := a[..];
      var temp := a[i].key;
      a[i] := a[i].(key := a[j].key);
      a[j] := a[j].(key := temp);
      LabelsExchange(before, a[..], i, j);
    }

    /** `insertNode`: appends `node-(n+1)` carrying the value, sifts the label
        up by exchanging labels with parents, then lays out every node again. */
    method InsertNode(value: int)
      requires Valid()
      modifies this
      ensures Valid()
      ensures Labels(nodes) == InsertValue(Labels(old(nodes)), value, IsMin(heapType))
      ensures multiset(Labels(nodes)) == multiset(Labels(old(nodes))) + multiset{value}
      ensures IsHeap(Labels(old(nodes)), IsMin(heapType)) ==> IsHeap(Labels(nodes), IsMin(heapType))
      ensures heapType == old(heapType) && inputValue == old(inputValue)
    {
      var newNodeIndex := |nodes|;
      var position := HeapPosition(newNodeIndex, windowWidth);
      var newNode := HeapNode(NodeId(newNodeIndex + 1), value, position);
      var pushed := nodes + [newNode];
      var newNodes := new HeapNode[newNodeIndex + 1](k requires 0 <= k < |pushed| => pushed[k]);
      assert newNodes[..] == pushed;
      LabelsSnoc(nodes, newNode);
      SiftUpKeys(newNodes, Labels(nodes), value);
      Relayout(newNodes);
      nodes := newNodes[..];
      InsertValuePermutes(Labels(old(nodes)), value, IsMin(heapType));
      if IsHeap(Labels(old(nodes)), IsMin(heapType)) {
        InsertKeepsHeap(Labels(old(nodes)), value, IsMin(heapType));
      }
    }

    /** The sift-up loop of `insertNode`: the label in the last slot climbs
        while it must sit above its parent's. */
    method SiftUpKeys(a: array<HeapNode>, ghost prev: seq<int>, ghost value: int)
      requires a.Length == |prev| + 1 && Labels(a[..]) == prev + [value]
      modifies a
      ensures Labels(a[..]) == InsertValue(prev, value, IsMin(heapType))
      ensures SameSlots(a[..], old(a[..]))
    {
      var current: nat := a.Length - 1;
      assert current == |prev|;
      while current > 0
        invariant current < a.Length
        invariant SiftUp(Labels(a[..]), current, IsMin(heapType)) == InsertValue(prev, value, IsMin(heapType))
        invariant SameSlots(a[..], old(a[..]))
      {
        var parentIndex := (current - 1) / 2;
        var shouldSwap := if heapType == Max then a[current].key > a[parentIndex].key
                          else a[current].key < a[parentIndex].key;
        if !shouldSwap {
          break;
        }
        ghost var before := a[..];
        var temp := a[current].key;
        a[current] := a[current].(key := a[parentIndex].key);
        a[parentIndex] := a[parentIndex].(key := temp);
        LabelsExchange(before, a[..], current, parentIndex);
        current := parentIndex;
      }
    }

    /** The closing `map` of `insertNode`: every node moves to the position
        of its index; labels and identifiers stay. */
    method Relayout(a: array<HeapNode>)
      modifies a
      ensures Labels(a[..]) == Labels(old(a[..]))
      ensures forall k :: 0 <= k < a.Length ==> a[k].id == old(a[k].id) && a[k].position == HeapPosition(k, windowWidth)
    {
      for index := 0 to a.Length
        invariant forall k :: 0 <= k < a.Length ==> a[k].id == old(a[k].id) && a[k].key == old(a[k].key)
        invariant forall k :: 0 <= k < index ==> a[k].position == HeapPosition(k, windowWidth)
      {
        a[index] := a[index].(position := HeapPosition(index, windowWidth));
      }
    }

    /** `deleteRoot`: nothing on an empty heap; otherwise the last label
        overwrites the root's, the last node is dropped and the root is
        sifted down. Identifiers and positions stay with their slots. */
    method DeleteRoot()
      requires Valid()
      modifies this
      ensures Valid()
      ensures |old(nodes)| == 0 ==> nodes == old(nodes)
      ensures |old(nodes)| > 0 ==> Labels(nodes) == RemoveRoot(Labels(old(nodes)), IsMin(heapType))
      ensures |old(nodes)| > 0 ==> multiset(Labels(nodes)) == multiset(Labels(old(nodes))) - multiset{old(nodes)[0].key}
      ensures IsHeap(Labels(old(nodes)), IsMin(heapType)) ==> IsHeap(Labels(nodes), IsMin(heapType))
      ensures heapType == old(heapType) && inputValue == old(inputValue)
    {
      if |nodes| == 0 {
        return;
      }
      var n := |nodes|;
      var overwritten := nodes[0 := nodes[0].(key := nodes[n - 1].key)];
      var newNodes := new HeapNode[n - 1](k requires 0 <= k < n - 1 => overwritten[k]);
      assert newNodes[..] == overwritten[..n - 1];
      assert Labels(newNodes[..]) == Labels(old(nodes))[0 := Labels(old(nodes))[n - 1]][..n - 1];
      Heapify(newNodes, 0, newNodes.Length);
      nodes := newNodes[..];
      RemoveRootPermutes(Labels(old(nodes)), IsMin(heapType));
      if IsHeap(Labels(old(nodes)), IsMin(heapType)) {
        RemoveRootKeepsHeap(Labels(old(nodes)), IsMin(heapType));
      }
    }

    /** The insert form: input that is blank after trimming is ignored, input
        `parseInt` cannot read raises an alert, and otherwise the value is
        inserted and the box emptied. */
    method HandleInsert() returns (outcome: InsertOutcome)
      requires Valid()
      modifies this
      ensures Valid() && heapType == old(heapType)
      ensures Trim(old(inputValue)) == "" ==>
                outcome == Ignored && nodes == old(nodes) && inputValue == old(inputValue)
      ensures Trim(old(inputValue)) != "" && ParseInt(old(inputValue)) == None ==>
                outcome == Alerted && nodes == old(nodes) && inputValue == old(inputValue)
      ensures Trim(old(inputValue)) != "" && ParseInt(old(inputValue)).Some? ==>
                outcome == Inserted(ParseInt(old(inputValue)).value) && inputValue == ""
                && Labels(nodes) == InsertValue(Labels(old(nodes)), ParseInt(old(inputValue)).value, IsMin(heapType))
    {
      if Trim(inputValue) == "" {
        return Ignored;
      }
      var parsed := ParseInt(inputValue);
      if parsed.None? {
        return Alerted;
      }
      InsertNode(parsed.value);
      inputValue := "";
      outcome := Inserted(parsed.value);
    }
  }
}
