# Data-structure engines of the visualizer editor

The editor is a React application with seven visualizers. This project models the engine behind each one; rendering, CSS and timers are not modelled:

- **Array heap** (`HeapArrayVisualizer`):
  - an integer array kept as a binary min- or max-heap;
  - filled from a comma-separated input box, with every compare/swap step of each sift-up emitted for playback;
  - a clear button;
  - a mode toggle that rebuilds the heap by re-insertion.
- **Node heap** (`HeapVisualizer`):
  - a heap of node records whose labels are the keys;
  - sift-up insertion and index-based layout;
  - root deletion with a recursive `heapify`, a handler that nothing on the page calls;
  - labels change places, identifiers and slots do not.
- **Directed graph** (`DirectedGraphVisualizer`):
  - nodes are only appended;
  - connections run from a chosen source to a clicked target;
  - the depth-first search of `detectCycles` flags connections, and is modelled exactly as written;
  - drag, pan and connect flags.
- **Binary tree builder** (`TreeVisualizer`): a root, then children added one free slot at a time.
- **Grid graph builder** (`GraphVisualizer`):
  - a seed node, and nodes grown in one of four directions, pushing the nodes beyond the new slot further out;
  - links from source to new node;
  - drag-and-drop;
  - a click toggle of the selected node and a random-placement add, handlers that no element calls.
- **Singly linked list editor** (`LinkedListVisualizer`): insert right or left of a node with `splice`, delete, relabel, and step zoom.
- **Doubly linked list editor** (`DoubleLinkedListVisualizer`): prepend and append with positions taken from the list ends, delete, value edits, and wheel zoom.

Every component's handlers become operations on its state.

- Handlers that change state in place are methods of a class with `modifies`:
  - the array heap;
  - the node heap, whose `heapify` and sift-up swap labels inside an `array`;
  - the directed graph and its DFS, which updates three sets from a recursive method;
  - the singly linked list, whose `splice` works on an array copy.
- List rebuilds made with spread, `map` and `filter` are functions.
- The modules:
  - `Common`: shared values.
  - `Strings`: `split`, `join`, `trim`, `toString` and `parseInt`.
  - `Viewport`: zoom and pan.
  - `Heaps`: the implicit binary heap shared by both heap visualizers.
  - One module per visualizer.

Ids `node-k` and `conn-k` are modelled as `NodeId(k)` and `ConnId(k)`. Coordinates and zoom scales are exact reals. Window sizes, pointer positions already converted to canvas coordinates, the random placement of the grid graph's `handleAddNode` (a handler nothing calls), and `Date.now()` ids are parameters.

The model keeps these behaviours of the code:

- For the connections A→B, B→C, C→A searched from A, the cycle search flags only B→C and C→A (`CycleDetection.TriangleExample`).
- A flagged connection need not lie on a cycle. A back edge returns at once and leaves its source on the stack, so a connection into that stale entry is flagged later. For A→B, B→C, C→A and D→C, with A searched first, D→C is flagged although no cycle uses it (`CycleDetection.StaleStackExample`, `CycleDetection.StaleStackFlagOffCycle`). The flagged set is still empty exactly when there is no cycle (`CycleDetection.FlaggedIffCyclic`).
- Duplicate connections are accepted (`DirectedGraph.DuplicateConnectionAccepted`).
- The array-heap toggle rebuilds under the comparator captured before the flip (`HeapArray.ToggleKeepsOldOrderExample`).
- `handleNodeDragEnd` is never called, so `isDraggingNode` stays set once a node is grabbed (`DirectedGraph.DirectedGraphVisualizer.HandleNodeDragEnd`).
- The node heap's `deleteRoot` (HeapVisualizer.jsx:97-106) is never called: no element's handler calls `deleteRoot`. `HeapTree.HeapVisualizer.DeleteRoot` models its body as written.
- The grid graph's `handleNodeClick` (GraphVisualizer.jsx:148-151) is never called: the node elements have no click handler, and the selection changes only through mouse-enter, mouse-leave and the area click (`handleGraphAreaClick`). `GridGraph.Toggle` and `GridGraph.ToggleTwice` model its body as written.
- The grid graph's `handleAddNode` (GraphVisualizer.jsx:27-36) is never called either: no element's handler calls `handleAddNode`. `GridGraph.AddNode` models its body as written.
- The tree's `handleWheel` (TreeVisualizer.jsx:79-96) is never attached. The effect that adds the listener depends only on `scale`, and it runs at mount, while the tree area is not yet rendered. The scale changes nowhere else, so the effect never runs again and the tree's scale stays 1. `Viewport.WheelZoom` models the handler's body as written. The doubly linked list renders its area from the start, so its wheel is live.

## Model

| member | source | states |
|---|---|---|
| Viewport.WheelZoom | src/components/DoubleLinkedListVisualizer.jsx:87-104 | the new scale is `scale - deltaY/1000` clamped to [0.1, 4]: exactly that value inside the range, the nearer bound outside it (the tree's `handleWheel`, TreeVisualizer.jsx:79-84, has the same body but is never attached) |
| Viewport.WheelZoomReversible | src/components/DoubleLinkedListVisualizer.jsx:87-92 | over exact reals, a wheel step that stays inside the range is undone by the opposite step |
| Viewport.ZoomIn | src/components/LinkedListVisualizer.jsx:64-66 | `min(4, scale + 0.1)`: never above 4, exactly +0.1 when that fits, and not below 0.1 when the scale was not |
| Viewport.ZoomOut | src/components/LinkedListVisualizer.jsx:68-70 | `max(0.1, scale - 0.1)`: never below 0.1, exactly -0.1 when that fits, and not above 4 when the scale was not |
| Viewport.ZoomOutUndoesZoomIn | src/components/LinkedListVisualizer.jsx:64-70 | over exact reals, zooming out after zooming in returns to the start scale unless the upper bound cut the step |
| Viewport.PanFollowsPointer | src/components/DirectedGraphVisualizer.jsx:97-114 | panning moves the offset by exactly the pointer's travel since mouse-down, and the offset is unchanged while the pointer has not moved |
| Strings.Split | src/components/HeapArrayVisualizer.jsx:21 | `split(',')` always yields at least one field |
| Strings.SplitJoin | src/components/HeapArrayVisualizer.jsx:21 | joining the fields with commas gives back the input, and no field contains a comma |
| Strings.TrimStart | src/components/HeapArrayVisualizer.jsx:22 | the result is a suffix of the input that does not start with white space |
| Strings.TrimEnd | src/components/HeapArrayVisualizer.jsx:22 | the result is a prefix of the input that does not end in white space |
| Strings.TrimNoWhitespace | src/components/HeapArrayVisualizer.jsx:22 | trimming leaves a string without white space unchanged |
| Strings.NatToString | src/components/DirectedGraphVisualizer.jsx:123 | `toString` of a natural number is a non-empty digit string with no leading zero |
| Strings.DecimalOfNatToString | src/components/DirectedGraphVisualizer.jsx:123 | reading a printed number back gives the number |
| Strings.NatToStringInjective | src/components/TreeVisualizer.jsx:57 | distinct numbers print as distinct labels |
| Strings.ParseIntOfIntToString | src/components/HeapVisualizer.jsx:64-75 | a label written with `toString` is read back by `parseInt` unchanged, negative numbers included |
| Strings.ParseIntNegative | src/components/HeapVisualizer.jsx:131 | `parseInt("-" + d)` is the negation of the digits' value |
| Strings.ParseIntPositive | src/components/HeapVisualizer.jsx:131 | `parseInt(d)` for a string starting with a digit is its unsigned value (decimal, or hexadecimal after `0x`) |
| Strings.ParseUnsignedOfDigits | src/components/HeapArrayVisualizer.jsx:24 | a decimal numeral is read as its decimal value |
| Heaps.Swap | src/components/HeapArrayVisualizer.jsx:59-60 | the two entries are exchanged and the length is kept |
| Heaps.SwapPermutes | src/components/HeapArrayVisualizer.jsx:59-60 | a swap keeps the multiset of values |
| Heaps.SiftUp | src/components/HeapArrayVisualizer.jsx:42-67 | a sift-up keeps the length |
| Heaps.SiftUpPermutes | src/components/HeapArrayVisualizer.jsx:42-67 | a sift-up keeps the multiset of values |
| Heaps.InsertValue | src/components/HeapArrayVisualizer.jsx:30-67 | push-then-sift-up adds exactly one element |
| Heaps.InsertValuePermutes | src/components/HeapVisualizer.jsx:58-87 | an insertion adds exactly the new value to the multiset |
| Heaps.SiftUpRestoresHeap | src/components/HeapArrayVisualizer.jsx:42-67 | a sift-up from the only out-of-order index, whose children already sit below its grandparent, yields a heap |
| Heaps.InsertKeepsHeap | src/components/HeapVisualizer.jsx:71-87 | inserting into a heap yields a heap (both sift-up loops) |
| Heaps.InsertOrderedAppends | src/components/HeapArrayVisualizer.jsx:49-53 | a value that does not precede its parent (ties included) causes no swap: the insert is a plain push |
| Heaps.Best | src/components/HeapVisualizer.jsx:16-34 | the chosen index is `i` or a child inside the heap; it precedes `i` when it is not `i`; no child inside the heap precedes it |
| Heaps.SiftDown | src/components/HeapVisualizer.jsx:15-44 | a sift-down keeps the length |
| Heaps.SiftDownPermutes | src/components/HeapVisualizer.jsx:36-43 | a sift-down keeps the multiset of values |
| Heaps.SiftDownRestoresHeap | src/components/HeapVisualizer.jsx:15-44 | when the heap order fails only between `i` and its children, and `i`'s children sit below `i`'s parent, sifting down from `i` yields a heap |
| Heaps.RemoveRoot | src/components/HeapVisualizer.jsx:97-106 | an empty heap is left as is; otherwise one element fewer |
| Heaps.RemoveRootPermutes | src/components/HeapVisualizer.jsx:100-104 | a root removal takes exactly the old root value out of the multiset |
| Heaps.RemoveRootKeepsHeap | src/components/HeapVisualizer.jsx:100-104 | removing the root of a heap yields a heap |
| Heaps.RootIsExtreme | src/components/HeapVisualizer.jsx:97-104 | no element of a heap precedes its root, so the removed value is the minimum (maximum) |
| Heaps.Log2Bounds | src/components/HeapVisualizer.jsx:47-48 | `2^floor(log2 n) <= n < 2^(floor(log2 n)+1)` |
| Heaps.ParentLevel | src/components/HeapArrayVisualizer.jsx:43 | the parent `(i-1)/2` is exactly one level above `i` |
| HeapArray.Sanitise | src/components/HeapArrayVisualizer.jsx:14-18 | the sanitised input holds only `0-9` and `,` and is no longer than the typed text |
| HeapArray.SanitiseKeepsAllowed | src/components/HeapArrayVisualizer.jsx:16 | every digit and comma of the typed text is kept, as often as it occurs |
| HeapArray.SanitiseClean | src/components/HeapArrayVisualizer.jsx:16 | clean text is left unchanged |
| HeapArray.SanitiseIdempotent | src/components/HeapArrayVisualizer.jsx:16 | sanitising twice is sanitising once |
| HeapArray.CollectValues | src/components/HeapArrayVisualizer.jsx:21-24 | at most one value per field, every value non-negative |
| HeapArray.NumeralIsParseInt | src/components/HeapArrayVisualizer.jsx:23-24 | a field kept by the filter is converted exactly as `parseInt` reads it |
| HeapArray.ParseJoinedNumerals | src/components/HeapArrayVisualizer.jsx:21-24 | parsing `v1,...,vn` yields exactly `v1, ..., vn` |
| HeapArray.ParseExample | src/components/HeapArrayVisualizer.jsx:21-24 | the input `5,3,8,1` yields 5, 3, 8, 1 |
| HeapArray.InsertAll | src/components/HeapArrayVisualizer.jsx:30-67 | the array grows by the number of inserted values |
| HeapArray.InsertAllPermutes | src/components/HeapArrayVisualizer.jsx:28-33 | after inserting, the array holds the old values plus the new ones, as a multiset |
| HeapArray.InsertAllKeepsHeap | src/components/HeapArrayVisualizer.jsx:30-67 | inserting any values into a heap keeps it a heap |
| HeapArray.SiftUpTracePairs | src/components/HeapArrayVisualizer.jsx:42-66 | every compare and swap step pairs an index with its parent `(i-1)/2`, and no step goes below the start index |
| HeapArray.SiftUpSwapBound | src/components/HeapArrayVisualizer.jsx:42-66 | a sift-up from index `i` swaps at most `floor(log2(i+1))` times |
| HeapArray.SiftUpSwapStep | src/components/HeapArrayVisualizer.jsx:49-66 | when the child precedes its parent, the loop swaps the two, emits compare then swap, and continues from the parent |
| HeapArray.SiftUpStopStep | src/components/HeapArrayVisualizer.jsx:49-53 | when the child does not precede its parent (a tie included), the loop stops after one compare step, with no swap |
| HeapArray.SiftUpAtRoot | src/components/HeapArrayVisualizer.jsx:42 | at the root the loop does nothing |
| HeapArray.InsertNext | src/components/HeapArrayVisualizer.jsx:30-72 | one more round of the outer loop inserts the next value and appends its steps |
| HeapArray.InsertExample | src/components/HeapArrayVisualizer.jsx:30-67 | inserting 5, 3, 8, 1 into an empty max-heap gives `[8, 3, 5, 1]` |
| HeapArray.InsertPrefixExample | src/components/HeapArrayVisualizer.jsx:30-67 | inserting 5, 3, 8 into an empty max-heap gives `[8, 3, 5]` |
| HeapArray.RebuildHeapUnchanged | src/components/HeapArrayVisualizer.jsx:92-115 | re-inserting a heap's values in positional order under its own comparator rebuilds it unchanged |
| HeapArray.RebuildPrefix | src/components/HeapArrayVisualizer.jsx:92-115 | each prefix of a heap is rebuilt unchanged |
| HeapArray.RebuildStep | src/components/HeapArrayVisualizer.jsx:93-114 | pushing the next heap value onto the rebuilt prefix causes no swap |
| HeapArray.ToggleKeepsOldOrderExample | src/components/HeapArrayVisualizer.jsx:84-115 | toggling min to max rebuilds `[1, 2]` unchanged, and the result is not a max-heap |
| HeapArray.HeapArrayVisualizer.constructor | src/components/HeapArrayVisualizer.jsx:5-10 | empty array, empty input, min mode, no highlights |
| HeapArray.HeapArrayVisualizer.HandleInputChange | src/components/HeapArrayVisualizer.jsx:14-18 | the input box becomes the sanitised text; array and mode unchanged |
| HeapArray.HeapArrayVisualizer.HandleInsert | src/components/HeapArrayVisualizer.jsx:20-75 | with no value parsed, nothing changes and no step is shown. Otherwise the array is the old one with each parsed value pushed and sifted up in order, the steps are exactly the compare/swap trace of those insertions, and the box is emptied |
| HeapArray.HeapArrayVisualizer.InsertValues | src/components/HeapArrayVisualizer.jsx:28-72 | the outer loop inserts every value in order and returns their concatenated traces |
| HeapArray.HeapArrayVisualizer.InsertOne | src/components/HeapArrayVisualizer.jsx:30-72 | one pass: push, highlight the new index, sift up, clear the highlights |
| HeapArray.HeapArrayVisualizer.SiftUpLast | src/components/HeapArrayVisualizer.jsx:39-67 | the inner loop leaves the sift-up of the pushed value and emits exactly its compare/swap trace |
| HeapArray.HeapArrayVisualizer.HandleClear | src/components/HeapArrayVisualizer.jsx:77-82 | the array and every highlight are cleared; input and mode kept |
| HeapArray.HeapArrayVisualizer.ToggleHeapType | src/components/HeapArrayVisualizer.jsx:84-117 | the flag flips, and the array is rebuilt by re-inserting the old values in order under the comparator of the mode before the flip |
| HeapArray.HeapArrayVisualizer.RebuildSiftUp | src/components/HeapArrayVisualizer.jsx:97-114 | the rebuild's inner loop sifts the pushed value up under the captured comparator |
| HeapTree.HeapPositionInLevel | src/components/HeapVisualizer.jsx:46-55 | the offset lies in `[0, 2^level)`; `y = 120·level + 100`; on a window of positive width, `x` is strictly inside the window |
| HeapTree.InsideWindow | src/components/HeapVisualizer.jsx:49-53 | the `k`-th of `n` evenly spaced points lies strictly inside the window |
| HeapTree.HeapPositionOrdered | src/components/HeapVisualizer.jsx:46-55 | within a level, a larger index is placed further right |
| HeapTree.RootPosition | src/components/HeapVisualizer.jsx:141-149 | the initial root sits exactly where the layout puts index 0 |
| HeapTree.SwitchKeepsOrderExample | src/components/HeapVisualizer.jsx:157-160 | the mode switch does not reorder: the max-heap `[50, 10]` stays and is not a min-heap |
| HeapTree.LabelsExchange | src/components/HeapVisualizer.jsx:38-40 | exchanging two nodes' labels swaps the label sequence and keeps ids and positions |
| HeapTree.HeapVisualizer.constructor | src/components/HeapVisualizer.jsx:141-149 | one root `node-1` labelled 50 at the middle of the window, in max mode, laid out |
| HeapTree.HeapVisualizer.HandleInputChange | src/components/HeapVisualizer.jsx:167 | the input box takes the typed text; nodes and mode unchanged |
| HeapTree.HeapVisualizer.SwitchHeapType | src/components/HeapVisualizer.jsx:157-160 | only the mode flips; the nodes are not reordered |
| HeapTree.HeapVisualizer.Heapify | src/components/HeapVisualizer.jsx:15-44 | the labels become the sift-down of the old labels from `i` within `heapSize`; ids and positions stay |
| HeapTree.HeapVisualizer.PickChild | src/components/HeapVisualizer.jsx:16-34 | the comparisons pick exactly the best of `i` and its children inside the heap |
| HeapTree.HeapVisualizer.ExchangeKeys | src/components/HeapVisualizer.jsx:36-41 | the two slots trade labels only |
| HeapTree.HeapVisualizer.InsertNode | src/components/HeapVisualizer.jsx:58-95 | labels become the old ones with the value inserted; the multiset grows by exactly the value; a heap stays a heap; node `k` is `node-(k+1)` at its layout position |
| HeapTree.HeapVisualizer.SiftUpKeys | src/components/HeapVisualizer.jsx:70-87 | the while loop leaves the sift-up of the appended label, moving labels only |
| HeapTree.HeapVisualizer.Relayout | src/components/HeapVisualizer.jsx:89-92 | every node moves to its index's position; labels and ids stay |
| HeapTree.HeapVisualizer.DeleteRoot | src/components/HeapVisualizer.jsx:97-106 | nothing on an empty heap. Otherwise the labels are the root removal of the old labels, exactly the old root value is gone, and a heap stays a heap; no event handler calls it |
| HeapTree.HeapVisualizer.HandleInsert | src/components/HeapVisualizer.jsx:127-139 | blank input is ignored and unreadable input alerts, both leaving the nodes unchanged. Otherwise the parsed value is inserted and the box emptied |
| CycleDetection.Outgoing | src/components/DirectedGraphVisualizer.jsx:43 | exactly the connections leaving the node |
| CycleDetection.OutgoingNone | src/components/DirectedGraphVisualizer.jsx:43 | a node no connection leaves has no outgoing connection |
| CycleDetection.Explore | src/components/DirectedGraphVisualizer.jsx:39-57 | `dfs(u)` visits `u`, only adds flags, flags only existing connections, and returns `true` only after flagging |
| CycleDetection.ExploreEdges | src/components/DirectedGraphVisualizer.jsx:44-56 | the loop of `dfs` has the same guarantees for the connections still to look at |
| CycleDetection.ExploreRoots | src/components/DirectedGraphVisualizer.jsx:59-63 | the root loop only adds visits and flags, and flags only existing connections |
| CycleDetection.Cycles | src/components/DirectedGraphVisualizer.jsx:34-66 | the flagged set is a subset of the existing connection ids |
| CycleDetection.BackEdgeCycle | src/components/DirectedGraphVisualizer.jsx:49-51 | a connection back to a node that reaches its source closes a directed cycle |
| CycleDetection.ExploreUnflaggedRestores | src/components/DirectedGraphVisualizer.jsx:39-57 | a run that flags nothing returns `false` and leaves the recursion stack as it found it |
| CycleDetection.ExploreEdgesUnflaggedRestores | src/components/DirectedGraphVisualizer.jsx:44-56 | the same for the loop over outgoing connections: `u` is popped and the loop returns `false` |
| CycleDetection.ExploreUnflaggedSettles | src/components/DirectedGraphVisualizer.jsx:39-57 | an unflagged run finishes its node and keeps the finished nodes closed under connections and free of cycles |
| CycleDetection.ExploreEdgesUnflaggedSettles | src/components/DirectedGraphVisualizer.jsx:44-56 | the same for the loop over outgoing connections |
| CycleDetection.FinishNode | src/components/DirectedGraphVisualizer.jsx:55 | popping a node whose connections all lead to finished nodes keeps the finished set settled |
| CycleDetection.ExploreRootsUnflagged | src/components/DirectedGraphVisualizer.jsx:59-63 | an unflagged root loop visits every node and leaves the visited nodes settled |
| CycleDetection.ExploreFlagsOnlyCycles | src/components/DirectedGraphVisualizer.jsx:39-57 | a search from a clean start that flags anything implies that the connections have a directed cycle; the flagged connection itself need not lie on one (`CycleDetection.StaleStackExample`) |
| CycleDetection.ExploreEdgesFlagsOnlyCycles | src/components/DirectedGraphVisualizer.jsx:44-52 | the loop over outgoing connections, from a clean start, flags anything only when the connections have a directed cycle |
| CycleDetection.ExploreRootsFlagsOnlyCycles | src/components/DirectedGraphVisualizer.jsx:59-63 | a root loop that flags anything implies a directed cycle |
| CycleDetection.FlaggedIffCyclic | src/components/DirectedGraphVisualizer.jsx:34-66 | when every connection leaves a listed node, the flagged set is empty exactly when the connections have no directed cycle |
| CycleDetection.ExploreSameConns | src/components/DirectedGraphVisualizer.jsx:39-57 | `dfs` depends only on the connections, not on the node list |
| CycleDetection.ExploreEdgesSameConns | src/components/DirectedGraphVisualizer.jsx:44-56 | the same for the loop over outgoing connections |
| CycleDetection.ExploreRootsSnoc | src/components/DirectedGraphVisualizer.jsx:59-63 | an extra root that no connection leaves changes no flag |
| CycleDetection.CyclesIgnoreNewNode | src/components/DirectedGraphVisualizer.jsx:68-70 | appending a node that no connection leaves keeps the flags, so rerunning only when connections change is sound |
| CycleDetection.NoConnsNoCycles | src/components/DirectedGraphVisualizer.jsx:34-66 | without connections nothing is flagged and there is no cycle |
| CycleDetection.TriangleFromB | src/components/DirectedGraphVisualizer.jsx:44-56 | on A→B→C→A, entered from A: B flags B→C after C flags C→A, then reports `false` and leaves C on the stack |
| CycleDetection.TriangleExample | src/components/DirectedGraphVisualizer.jsx:34-66 | for A→B, B→C, C→A searched from A the flags are exactly `conn-2` and `conn-3` |
| CycleDetection.StaleStackExample | src/components/DirectedGraphVisualizer.jsx:34-66 | for A→B, B→C, C→A and D→C, with A searched first, the flags are exactly `conn-2`, `conn-3` and `conn-4`: C stays on the stack after A's search, so D→C is flagged too |
| CycleDetection.StaleStackFlagOffCycle | src/components/DirectedGraphVisualizer.jsx:49-51 | in that graph no cycle uses D→C, so the flagged `conn-4` lies on no cycle |
| CycleDetection.CycleSearch.constructor | src/components/DirectedGraphVisualizer.jsx:35-37 | the three sets start empty |
| CycleDetection.CycleSearch.Dfs | src/components/DirectedGraphVisualizer.jsx:39-57 | the in-place recursive search leaves exactly the sets and result of `Explore` |
| CycleDetection.CycleSearch.Run | src/components/DirectedGraphVisualizer.jsx:59-63 | the root loop leaves exactly the flags `Cycles` defines |
| DirectedGraph.AddNode | src/components/DirectedGraphVisualizer.jsx:120-127 | appends one node at the point; numbered nodes stay numbered and the new id is fresh |
| DirectedGraph.AddNodeIds | src/components/DirectedGraphVisualizer.jsx:120-127 | the id list gains exactly `node-(n+1)` at the end |
| DirectedGraph.Connect | src/components/DirectedGraphVisualizer.jsx:134-142 | `conn-(m+1)` is appended exactly when a source is set and differs from the target; otherwise the connections are unchanged |
| DirectedGraph.ConnectKeepsShape | src/components/DirectedGraphVisualizer.jsx:135-141 | connecting keeps ids numbered, no self-loops, and connections only between shown nodes |
| DirectedGraph.DuplicateConnectionAccepted | src/components/DirectedGraphVisualizer.jsx:135-141 | a second `node-1`→`node-2` connection is appended as `conn-2` |
| DirectedGraph.MoveNode | src/components/DirectedGraphVisualizer.jsx:85-89 | only nodes with the dragged id move, to the point; ids and labels stay |
| DirectedGraph.MoveNodeKeepsIds | src/components/DirectedGraphVisualizer.jsx:85-89 | dragging keeps the id list and the numbering |
| DirectedGraph.DirectedGraphVisualizer.constructor | src/components/DirectedGraphVisualizer.jsx:5-18 | no graph, no nodes or connections, no flags, all flags false |
| DirectedGraph.DirectedGraphVisualizer.DetectCycles | src/components/DirectedGraphVisualizer.jsx:34-70 | the flags become `Cycles` of the current graph; nothing else changes |
| DirectedGraph.DirectedGraphVisualizer.HandleCreateGraph | src/components/DirectedGraphVisualizer.jsx:20-32 | exactly one node `node-1` labelled `1`, 30 up and left of the window middle; every other field unchanged |
| DirectedGraph.DirectedGraphVisualizer.HandleAddNode | src/components/DirectedGraphVisualizer.jsx:120-127 | the node list is `AddNode` of the old one, and the flags are still a fresh search's; every other field unchanged |
| DirectedGraph.DirectedGraphVisualizer.StartConnection | src/components/DirectedGraphVisualizer.jsx:129-132 | connect mode with the node as source; every other field unchanged |
| DirectedGraph.DirectedGraphVisualizer.CompleteConnection | src/components/DirectedGraphVisualizer.jsx:134-145 | the connections become `Connect` of the old ones, the flags are recomputed, and connect mode ends either way; every other field unchanged |
| DirectedGraph.DirectedGraphVisualizer.HandleNodeClick | src/components/DirectedGraphVisualizer.jsx:224-228 | a node click completes a connection only in connect mode, and otherwise changes nothing; the pan and drag state is unchanged either way |
| DirectedGraph.DirectedGraphVisualizer.HandleNodeDragStart | src/components/DirectedGraphVisualizer.jsx:72-76 | starts dragging that node; every other field, the connect source included, unchanged |
| DirectedGraph.DirectedGraphVisualizer.HandleNodeDrag | src/components/DirectedGraphVisualizer.jsx:78-90 | while a node is dragged it moves to the point; otherwise nothing changes; every other field unchanged |
| DirectedGraph.DirectedGraphVisualizer.HandleNodeDragEnd | src/components/DirectedGraphVisualizer.jsx:92-95 | clears the node-drag flag and target, and every other field is unchanged; no event handler calls it |
| DirectedGraph.DirectedGraphVisualizer.HandleCanvasDragStart | src/components/DirectedGraphVisualizer.jsx:97-105 | panning starts, and the anchor is recorded, only when no node is dragged; every other field unchanged |
| DirectedGraph.DirectedGraphVisualizer.HandleCanvasDrag | src/components/DirectedGraphVisualizer.jsx:107-114 | while panning, the offset follows the pointer; every other field unchanged |
| DirectedGraph.DirectedGraphVisualizer.HandleMouseMove | src/components/DirectedGraphVisualizer.jsx:176-182 | mouse-move drags the node while a node is dragged and pans otherwise; every other field unchanged |
| DirectedGraph.DirectedGraphVisualizer.HandleCanvasDragEnd | src/components/DirectedGraphVisualizer.jsx:116-118 | mouse-up and mouse-leave clear the panning flag, and every other field is unchanged |
| DirectedGraph.ConnectGesture | src/components/DirectedGraphVisualizer.jsx:183-237 | press, release and handle click on `a`, then press, release and click on `b`, adds exactly `Connect` of the old connections from `a` to `b`, with fresh flags and connect mode off |
| DirectedGraph.DirectedGraphVisualizer.ShowsCycle | src/components/DirectedGraphVisualizer.jsx:205 | some connection gets the cycle style exactly when the connections have a directed cycle |
| BinaryTree.CreateTree | src/components/TreeVisualizer.jsx:16-34 | one root `node-1`, level 0, no parent, no children |
| BinaryTree.Spacing | src/components/TreeVisualizer.jsx:38 | `max(200/(level+1), 80)`: at least both terms and equal to one of them |
| BinaryTree.SpacingByLevel | src/components/TreeVisualizer.jsx:36-44 | the spacing is 100 at level 1 and 80 deeper |
| BinaryTree.ChildPositionOffsets | src/components/TreeVisualizer.jsx:36-44 | a child is 120 below its parent and 100 (children of the root) or 80 to its left or right |
| BinaryTree.FindNode | src/components/TreeVisualizer.jsx:47 | a found node is in the list with that id; none is found only when no node has the id |
| BinaryTree.Without | src/components/TreeVisualizer.jsx:73 | exactly the nodes with other ids are kept |
| BinaryTree.WithoutOne | src/components/TreeVisualizer.jsx:73 | with distinct ids, filtering one present id drops exactly that node and keeps the order |
| BinaryTree.WithoutAbsent | src/components/TreeVisualizer.jsx:73 | filtering an absent id changes nothing |
| BinaryTree.FindUnique | src/components/TreeVisualizer.jsx:47 | with distinct ids the lookup finds the node at its index |
| BinaryTree.AddChild | src/components/TreeVisualizer.jsx:46-52 | an unknown parent or a filled slot leaves the nodes unchanged |
| BinaryTree.AddChildShape | src/components/TreeVisualizer.jsx:54-76 | on success: one node more, the others in order, then the parent with only the chosen slot filled, then the child one level down with the parent, no children and its computed position |
| BinaryTree.CreateTreeValid | src/components/TreeVisualizer.jsx:16-34 | the created tree satisfies the tree invariant |
| BinaryTree.AddChildKeepsTree | src/components/TreeVisualizer.jsx:46-77 | every `addChild` keeps the tree invariant: distinct numbered ids, each non-root node named by its parent in exactly one slot, slots pointing back |
| BinaryTree.AddChildAt | src/components/TreeVisualizer.jsx:54-76 | a successful `addChild` keeps the tree invariant |
| BinaryTree.AddKeepsNumbered | src/components/TreeVisualizer.jsx:56-57 | the new list still has distinct ids `node-1` to `node-(n+1)` labelled by number |
| BinaryTree.UniqueWithout | src/components/TreeVisualizer.jsx:73 | dropping one node keeps the ids distinct |
| BinaryTree.FreshChild | src/components/TreeVisualizer.jsx:56 | the id `node-(n+1)` is not yet used |
| BinaryTree.RestMembers | src/components/TreeVisualizer.jsx:72-76 | the new list holds the old nodes other than the parent, the updated parent and the child |
| BinaryTree.AddedIds | src/components/TreeVisualizer.jsx:55-76 | the id set grows by exactly the child; parents and filled slots still name existing nodes |
| BinaryTree.AddKeepsRoots | src/components/TreeVisualizer.jsx:58-61 | the only root is still `node-1` at level 0, and exactly the root has no parent |
| BinaryTree.AddKeepsParentsName | src/components/TreeVisualizer.jsx:58-70 | every node is one level below its parent, which names it in exactly one slot |
| BinaryTree.AddKeepsSlotsBack | src/components/TreeVisualizer.jsx:61-70 | every filled slot names a node whose parent is the slot's owner |
| GridGraph.CreateGraph | src/components/GraphVisualizer.jsx:11-25 | one seed `node-1` centred in the area (offset by half a node) |
| GridGraph.AddNode | src/components/GraphVisualizer.jsx:27-36 | appends `node-(n+1)` at the given place; the others unchanged; no element calls it |
| GridGraph.Step | src/components/GraphVisualizer.jsx:103-118 | one spacing along the direction's axis only; an unknown direction stays put |
| GridGraph.ShiftNode | src/components/GraphVisualizer.jsx:62-100 | a node at or beyond the new slot moves one step; any other node is unchanged; the id stays |
| GridGraph.ShiftAll | src/components/GraphVisualizer.jsx:62-100 | the shift is applied to each node, in order |
| GridGraph.AddNodeInDirection | src/components/GraphVisualizer.jsx:57-132 | the shifted nodes, then `node-(n+1)` one step from the source; exactly one link source→new node appended |
| GridGraph.ShiftExact | src/components/GraphVisualizer.jsx:62-100 | existing nodes keep ids and order, move only along the axis, and move exactly when they lay at or beyond the new slot |
| GridGraph.NewNodePlacement | src/components/GraphVisualizer.jsx:103-118 | the new node is exactly 100 from the source in the direction; on the source for an unknown direction |
| GridGraph.SourceNeverShifted | src/components/GraphVisualizer.jsx:62-100 | a node at the source's position, the source included, never moves |
| GridGraph.NewSlotFree | src/components/GraphVisualizer.jsx:57-118 | in a known direction no existing node ends on the new node's position |
| GridGraph.ShiftMonotone | src/components/GraphVisualizer.jsx:62-100 | the shift keeps the order of nodes along the direction's axis |
| GridGraph.Drop | src/components/GraphVisualizer.jsx:46-55 | only the dropped id's nodes move, to the drop point; ids stay |
| GridGraph.DropTwice | src/components/GraphVisualizer.jsx:52-54 | two drops in a row leave only the second |
| GridGraph.Toggle | src/components/GraphVisualizer.jsx:148-151 | clicking the selected node deselects it; any other node becomes the selection; no element calls it |
| GridGraph.ToggleTwice | src/components/GraphVisualizer.jsx:148-151 | two clicks on a node restore no selection or that node's selection; from another node's selection they end with none |
| GridGraph.CreateGraphValid | src/components/GraphVisualizer.jsx:11-25 | the seed graph satisfies the invariant: node `k` is `node-(k+1)`, links climb |
| GridGraph.AddNodeValid | src/components/GraphVisualizer.jsx:27-36 | appending a node keeps the invariant |
| GridGraph.AddNodeInDirectionValid | src/components/GraphVisualizer.jsx:120-131 | growing from a node of the graph keeps the invariant |
| GridGraph.DropValid | src/components/GraphVisualizer.jsx:52-54 | dropping keeps the invariant |
| GridGraph.LinksClimb | src/components/GraphVisualizer.jsx:125-131 | a chain of links always ends at a higher node than it starts, so the links never form a cycle |
| LinkedList.FindIndex | src/components/LinkedListVisualizer.jsx:29 | the first index with the id, or -1 exactly when no node has it |
| LinkedList.SpliceStart | src/components/LinkedListVisualizer.jsx:37 | `splice`'s start: a negative index counts from the end; the result clamped to the array |
| LinkedList.Spliced | src/components/LinkedListVisualizer.jsx:35-37 | one element more, the new node at the start position |
| LinkedList.Remove | src/components/LinkedListVisualizer.jsx:48 | exactly the nodes with other ids are kept |
| LinkedList.Relabel | src/components/LinkedListVisualizer.jsx:58-62 | only the matching nodes' labels change, to the new text |
| LinkedList.AddNextFound | src/components/LinkedListVisualizer.jsx:28-37 | with a known source, the new node is right after it (`right`) or right before it (otherwise), and the rest keeps its order |
| LinkedList.AddNextMissing | src/components/LinkedListVisualizer.jsx:29-37 | with an unknown source, `right` inserts at the front and `left` before the last node (`splice(-1, ...)`) |
| LinkedList.RemoveAppend | src/components/LinkedListVisualizer.jsx:48 | deleting keeps the order of the rest: filter distributes over concatenation |
| LinkedList.RemoveAbsent | src/components/LinkedListVisualizer.jsx:48 | deleting an absent id changes nothing |
| LinkedList.DeleteUndoesAdd | src/components/LinkedListVisualizer.jsx:28-56 | deleting a node just inserted under a fresh id restores the list |
| LinkedList.RelabelSame | src/components/LinkedListVisualizer.jsx:58-62 | relabelling to the current label changes nothing |
| LinkedList.Arrows | src/components/LinkedListVisualizer.jsx:166-170 | a list of `n` nodes draws `n-1` connectors (none when empty) |
| LinkedList.Splice | src/components/LinkedListVisualizer.jsx:35-37 | the in-place `splice` on the copy computes `Spliced` |
| LinkedList.SplicedAt | src/components/LinkedListVisualizer.jsx:37 | before the start the old elements, at it the new node, after it the old elements shifted by one |
| LinkedList.ZoomStaysInRange | src/components/LinkedListVisualizer.jsx:64-70 | any run of clicks on the two zoom buttons keeps the scale within [0.1, 4] |
| LinkedList.LinkedListVisualizer.constructor | src/components/LinkedListVisualizer.jsx:16-26 | one unlabelled node in the middle of the window, at scale 1 |
| LinkedList.LinkedListVisualizer.HandleAddNode | src/components/LinkedListVisualizer.jsx:28-42 | the list becomes `AddNext` of the old one |
| LinkedList.LinkedListVisualizer.HandleDeleteNode | src/components/LinkedListVisualizer.jsx:44-56 | the list becomes the old one filtered by id |
| LinkedList.LinkedListVisualizer.HandleLabelChange | src/components/LinkedListVisualizer.jsx:58-62 | the list becomes the relabelled old one |
| LinkedList.LinkedListVisualizer.HandleZoomIn | src/components/LinkedListVisualizer.jsx:64-66 | the scale becomes `ZoomIn` of the old scale |
| LinkedList.LinkedListVisualizer.HandleZoomOut | src/components/LinkedListVisualizer.jsx:68-70 | the scale becomes `ZoomOut` of the old scale |
| DoubleLinkedList.Init | src/components/DoubleLinkedListVisualizer.jsx:13-24 | one node `node-1` with value `1` at the home position |
| DoubleLinkedList.NewPosition | src/components/DoubleLinkedListVisualizer.jsx:40-53 | the home position in an empty list; else 120 left of the first node or 120 right of the last, on its row |
| DoubleLinkedList.AddNode | src/components/DoubleLinkedListVisualizer.jsx:26-38 | `start` prepends and anything else appends `node-(n+1)` with value n+1; the old nodes are unchanged |
| DoubleLinkedList.DeleteNode | src/components/DoubleLinkedListVisualizer.jsx:55-57 | exactly the nodes with other ids are kept |
| DoubleLinkedList.SetValue | src/components/DoubleLinkedListVisualizer.jsx:59-63 | only the matching nodes' values change |
| DoubleLinkedList.InitInRow | src/components/DoubleLinkedListVisualizer.jsx:13-24 | the initial list is one level row |
| DoubleLinkedList.AddNodeInRow | src/components/DoubleLinkedListVisualizer.jsx:26-53 | adding at either end keeps the nodes on one line, left to right in list order |
| DoubleLinkedList.DeleteNodeInRow | src/components/DoubleLinkedListVisualizer.jsx:55-57 | deleting keeps the row level and ordered |
| DoubleLinkedList.DeleteNodeOrdered | src/components/DoubleLinkedListVisualizer.jsx:55-57 | deleting keeps the left-to-right order |
| DoubleLinkedList.SetValueInRow | src/components/DoubleLinkedListVisualizer.jsx:59-63 | value edits keep the row |
| DoubleLinkedList.IdReused | src/components/DoubleLinkedListVisualizer.jsx:26-57 | ids are not unique: delete `node-1` from two nodes, append, and there are two `node-2` |
| DoubleLinkedList.DeleteUndoesAdd | src/components/DoubleLinkedListVisualizer.jsx:26-57 | deleting the node just added restores the list when its id was unused |
| DoubleLinkedList.DeleteAbsent | src/components/DoubleLinkedListVisualizer.jsx:56 | deleting an absent id changes nothing |
| DoubleLinkedList.DeleteAppend | src/components/DoubleLinkedListVisualizer.jsx:56 | the delete filter distributes over concatenation, so order is kept |

## Left out

- Viewport.WheelZoomReversible: the scale is an exact real, so the round trip holds exactly. JavaScript rounds to doubles and breaks it: from 1, a wheel step of 50, then -100, then 100 gives 0.95, 1.05, 0.9500000000000001.
- Viewport.ZoomOutUndoesZoomIn: the scale is an exact real, so the round trip holds exactly. In JavaScript doubles, 0.2 zoomed in gives 0.30000000000000004, and zooming out from that gives 0.20000000000000004, not 0.2. The clamp bounds hold either way.
- Rendering, CSS class choice and all connector geometry (`Math.sqrt`, `Math.atan2`): floating point and cosmetic.
- Screen-to-canvas conversion through `getBoundingClientRect`, the offset and the scale. Handlers take the converted point as a parameter.
- `window.innerWidth` and `innerHeight`, the area's `clientWidth` and `clientHeight`, and the `Math.random` placement of the grid graph's never-called `handleAddNode` are parameters.
- The node heap reads `window.innerWidth` on every `calculateNodePosition` call (HeapVisualizer.jsx:50). The model reads it once, when the component is built (`HeapTree.HeapVisualizer.windowWidth`), so window resizes are not modelled. After a resize, the next insert in the source lays every node out for the new width.
- `Date.now()` ids of the singly linked list are a fresh-id parameter.
- Delays, `setTimeout` and React state batching are not modelled. A handler's state updates happen at once.
- The singly linked list's delete filters the list captured 300 ms earlier; the model filters the current list.
- The `deletingNodes` and `newNodeId` animation state of the singly linked list is not modelled.
- The array heap's toggle awaits between steps, and overlapping runs of it are not modelled. Its captured comparator is modelled.
- Hover state, the grid graph's `handleGraphAreaClick` (which clears the selection), the back buttons and the `App.jsx` composition are not modelled.
- Panning:
  - It is modelled once, as `Viewport.PanAnchor`, `Viewport.PanOffset` and `Viewport.PanFollowsPointer`, and wired into the directed graph's state.
  - The identical pan handlers of the node heap, tree and list visualizers are not repeated as state.
  - Only the doubly linked list's scale actually changes through `Viewport.WheelZoom`. The tree's wheel handler is never attached, so its scale stays 1.
- Strings.ParseInt:
  - It reads an optional sign, then decimal digits, or hexadecimal digits after `0x`.
  - It returns no value when no digit follows.
  - JavaScript's float results (very long numerals losing precision, `-0`) are not modelled.
- HeapArray.CollectValues keeps a trimmed field only when it is all digits. This matches `!isNaN(v)` for sanitised input, which is the only input the box can hold, but not for forms like `1e3`, `+5` or `0x1A`, which the sanitiser removes.
- HeapTree node labels are integers, and `parseInt(label)` of a label is its value (`Strings.ParseIntOfIntToString`).
- `insertNode` and `deleteRoot` mutate node objects that the old state shares. That aliasing is not modelled: each handler produces a fresh node sequence.
- Requires that reflect how the page is wired:
  - `HandleCreateGraph` needs the graph not yet created (its button only shows then);
  - `HandleAddNode` needs it created (the canvas only shows then);
  - clicked and connected node ids exist, since they are taken from rendered nodes;
  - the grid graph's source node is one of its nodes.
- Nodes added later to the singly linked list carry no position; the page layout places them.
