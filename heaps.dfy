/** The implicit binary heap shared by the two heap visualizers: a dense
    sequence read as a complete binary tree (parent of `i` is `(i-1)/2`,
    children `2i+1` and `2i+2`), ordered by the min or max comparator.
    Sift-up and sift-down are defined here as functions; the visualizers'
    loops and recursion are proved equal to them. */
module Heaps {

  /** `x` must sit above `y`: strictly smaller in a min-heap, strictly
      larger in a max-heap. This is the `shouldSwap` test of both sources. */
  predicate Precedes(isMin: bool, x: int, y: int) {
    if isMin then x < y else x > y
  }

  /** Every element is at least as close to the top as its children:
      no child precedes its parent. Equal values never violate it. */
  predicate IsHeap(s: seq<int>, isMin: bool) {
    forall j :: 0 < j < |s| ==> BelowParent(s, j, isMin)
  }

  /** The element at `j > 0` does not precede its parent. */
  predicate BelowParent(s: seq<int>, j: nat, isMin: bool)
    requires 0 < j < |s|
  {
    !Precedes(isMin, s[j], s[(j - 1) / 2])
  }

  function Swap(s: seq<int>, i: nat, j: nat): (r: seq<int>)
    requires i < |s| && j < |s|
    ensures |r| == |s| && r[i] == s[j] && r[j] == s[i]
  {
    s[i := s[j]][j := s[i]]
  }

  lemma SwapPermutes(s: seq<int>, i: nat, j: nat)
    requires i < |s| && j < |s|
    ensures multiset(Swap(s, i, j)) == multiset(s)
  {
  }

  // ---------------------------------------------------------------------
  // Sift-up

  /** Walks the element at `i` towards the root while it precedes its parent. */
  function SiftUp(s: seq<int>, i: nat, isMin: bool): (r: seq<int>)
    requires i < |s|
    ensures |r| == |s|
    decreases i
  {
    if i == 0 then s
    else if Precedes(isMin, s[i], s[(i - 1) / 2]) then SiftUp(Swap(s, i, (i - 1) / 2), (i - 1) / 2, isMin)
    else s
  }

  /** Sift-up only moves values around. */
  lemma {:induction false} SiftUpPermutes(s: seq<int>, i: nat, isMin: bool)
    requires i < |s|
    ensures multiset(SiftUp(s, i, isMin)) == multiset(s)
    decreases i
  {
    if i > 0 && Precedes(isMin, s[i], s[(i - 1) / 2]) {
      SwapPermutes(s, i, (i - 1) / 2);
      SiftUpPermutes(Swap(s, i, (i - 1) / 2), (i - 1) / 2, isMin);
    }
  }

  /** Appends `v` and sifts it up: one insertion of either visualizer. */
  function InsertValue(s: seq<int>, v: int, isMin: bool): (r: seq<int>)
    ensures |r| == |s| + 1
  {
    SiftUp(s + [v], |s|, isMin)
  }

  /** An insertion adds exactly `v` to the values held. */
  lemma InsertValuePermutes(s: seq<int>, v: int, isMin: bool)
    ensures multiset(InsertValue(s, v, isMin)) == multiset(s) + multiset{v}
  {
    SiftUpPermutes(s + [v], |s|, isMin);
  }

  /** The heap order holds everywhere except possibly between `k` and its parent. */
  ghost predicate HeapExceptAt(s: seq<int>, k: nat, isMin: bool) {
    forall j :: 0 < j < |s| && j != k ==> BelowParent(s, j, isMin)
  }

  /** The children of `k` are already ordered against `k`'s parent. */
  ghost predicate ChildrenBelowGrandparent(s: seq<int>, k: nat, isMin: bool)
    requires k < |s|
  {
    k > 0 ==> forall j :: 0 < j < |s| && (j - 1) / 2 == k ==> !Precedes(isMin, s[j], s[(k - 1) / 2])
  }

  lemma {:induction false} SiftUpRestoresHeap(s: seq<int>, i: nat, isMin: bool)
    requires i < |s|
    requires HeapExceptAt(s, i, isMin) && ChildrenBelowGrandparent(s, i, isMin)
    ensures IsHeap(SiftUp(s, i, isMin), isMin)
    decreases i
  {
    if i > 0 && Precedes(isMin, s[i], s[(i - 1) / 2]) {
      var p := (i - 1) / 2;
      var t := Swap(s, i, p);
      forall j | 0 < j < |t| && j != p
        ensures BelowParent(t, j, isMin)
      {
        var q := (j - 1) / 2;
        if j == i {
        } else if q == i {
          assert t[j] == s[j] && t[q] == s[p];
        } else if q == p {
          assert BelowParent(s, j, isMin);
          assert t[j] == s[j] && t[q] == s[i];
        } else {
          assert BelowParent(s, j, isMin);
          assert t[j] == s[j] && t[q] == s[q];
        }
      }
      if p > 0 {
        var g := (p - 1) / 2;
        assert BelowParent(s, p, isMin);
        forall j | 0 < j < |t| && (j - 1) / 2 == p
          ensures !Precedes(isMin, t[j], t[g])
        {
          if j != i {
            assert BelowParent(s, j, isMin);
            assert t[j] == s[j];
          }
        }
      }
      SiftUpRestoresHeap(t, p, isMin);
    }
  }

  /** Inserting into a heap yields a heap (both sources' sift-up loops). */
  lemma InsertKeepsHeap(s: seq<int>, v: int, isMin: bool)
    requires IsHeap(s, isMin)
    ensures IsHeap(InsertValue(s, v, isMin), isMin)
  {
    var t := s + [v];
    assert HeapExceptAt(t, |s|, isMin) by {
      forall j | 0 < j < |t| && j != |s| ensures BelowParent(t, j, isMin) {
        assert BelowParent(s, j, isMin);
        assert t[j] == s[j] && t[(j - 1) / 2] == s[(j - 1) / 2];
      }
    }
    SiftUpRestoresHeap(t, |s|, isMin);
  }

  /** When the appended value does not precede its parent, sift-up does no swap
      (a tie is not a swap). */
  lemma InsertOrderedAppends(s: seq<int>, v: int, isMin: bool)
    requires |s| > 0 ==> !Precedes(isMin, v, s[(|s| - 1) / 2])
    ensures InsertValue(s, v, isMin) == s + [v]
  {
  }

  // ---------------------------------------------------------------------
  // Sift-down (`heapify` of the node-based heap visualizer)

  /** The index among `i` and its children below `size` that must sit on top;
      the left child replaces `i` only when it strictly precedes it, the right
      child replaces the current choice only when it strictly precedes that. */
  function Best(s: seq<int>, i: nat, size: nat, isMin: bool): (m: nat)
    requires size <= |s|
    ensures m == i || (m < size && (m == 2 * i + 1 || m == 2 * i + 2))
    ensures m != i ==> Precedes(isMin, s[m], s[i])
    ensures 2 * i + 1 < size ==> !Precedes(isMin, s[2 * i + 1], s[m])
    ensures 2 * i + 2 < size ==> !Precedes(isMin, s[2 * i + 2], s[m])
  {
    var left := 2 * i + 1;
    var right := 2 * i + 2;
    var m := if left < size && Precedes(isMin, s[left], s[i]) then left else i;
    if right < size && Precedes(isMin, s[right], s[m]) then right else m
  }

  /** Swaps `i` with its best child within `size` and continues from that child,
      or stops when `i` is already best. */
  function SiftDown(s: seq<int>, i: nat, size: nat, isMin: bool): (r: seq<int>)
    requires size <= |s|
    ensures |r| == |s|
    decreases size - i
  {
    var m := Best(s, i, size, isMin);
    if m != i then SiftDown(Swap(s, i, m), m, size, isMin) else s
  }

  lemma {:induction false} SiftDownPermutes(s: seq<int>, i: nat, size: nat, isMin: bool)
    requires size <= |s|
    ensures multiset(SiftDown(s, i, size, isMin)) == multiset(s)
    decreases size - i
  {
    var m := Best(s, i, size, isMin);
    if m != i {
      SwapPermutes(s, i, m);
      SiftDownPermutes(Swap(s, i, m), m, size, isMin);
    }
  }

  /** The heap order holds everywhere except possibly between `k` and its children. */
  ghost predicate HeapExceptBelow(s: seq<int>, k: nat, isMin: bool) {
    forall j :: 0 < j < |s| && (j - 1) / 2 != k ==> BelowParent(s, j, isMin)
  }

  lemma {:induction false} SiftDownRestoresHeap(s: seq<int>, i: nat, isMin: bool)
    requires i < |s|
    requires HeapExceptBelow(s, i, isMin) && ChildrenBelowGrandparent(s, i, isMin)
    ensures IsHeap(SiftDown(s, i, |s|, isMin), isMin)
    decreases |s| - i
  {
    var m := Best(s, i, |s|, isMin);
    if m != i {
      var t := Swap(s, i, m);
      forall j | 0 < j < |t| && (j - 1) / 2 != m
        ensures BelowParent(t, j, isMin)
      {
        var q := (j - 1) / 2;
        if j == m {
          assert t[j] == s[i] && t[q] == s[m];
        } else if j == i {
          assert t[j] == s[m] && t[q] == s[q];
        } else if q == i {
          assert t[j] == s[j] && t[q] == s[m];
        } else {
          assert BelowParent(s, j, isMin);
          assert t[j] == s[j] && t[q] == s[q];
        }
      }
      forall j | 0 < j < |t| && (j - 1) / 2 == m
        ensures !Precedes(isMin, t[j], t[(m - 1) / 2])
      {
        assert BelowParent(s, j, isMin);
        assert t[j] == s[j] && t[(m - 1) / 2] == s[m];
      }
      SiftDownRestoresHeap(t, m, isMin);
    } else {
      forall j | 0 < j < |s| ensures BelowParent(s, j, isMin) {
        if (j - 1) / 2 == i {
          assert j == 2 * i + 1 || j == 2 * i + 2;
        } else {
          assert BelowParent(s, j, isMin);
        }
      }
    }
  }

  /** `deleteRoot`: nothing on an empty heap; otherwise the last value
      overwrites the root, the last slot is dropped and the root is sifted down. */
  function RemoveRoot(s: seq<int>, isMin: bool): (r: seq<int>)
    ensures |s| == 0 ==> r == s
    ensures |s| > 0 ==> |r| == |s| - 1
  {
    if |s| == 0 then s
    else
      var t := s[0 := s[|s| - 1]][..|s| - 1];
      SiftDown(t, 0, |t|, isMin)
  }

  /** A root removal takes out exactly the root value. */
  lemma RemoveRootPermutes(s: seq<int>, isMin: bool)
    requires |s| > 0
    ensures multiset(RemoveRoot(s, isMin)) == multiset(s) - multiset{s[0]}
  {
    var t := s[0 := s[|s| - 1]][..|s| - 1];
    SiftDownPermutes(t, 0, |t|, isMin);
    if |s| > 1 {
      assert s == [s[0]] + s[1..|s| - 1] + [s[|s| - 1]];
      assert t == [s[|s| - 1]] + s[1..|s| - 1];
    }
  }

  lemma RemoveRootKeepsHeap(s: seq<int>, isMin: bool)
    requires IsHeap(s, isMin)
    ensures IsHeap(RemoveRoot(s, isMin), isMin)
  {
    if |s| > 1 {
      var t := s[0 := s[|s| - 1]][..|s| - 1];
      forall j | 0 < j < |t| && (j - 1) / 2 != 0 ensures BelowParent(t, j, isMin) {
        assert BelowParent(s, j, isMin);
        assert t[j] == s[j] && t[(j - 1) / 2] == s[(j - 1) / 2];
      }
      SiftDownRestoresHeap(t, 0, isMin);
    }
  }

  /** A root removal takes out a value that no other element precedes:
      the minimum of a min-heap, the maximum of a max-heap. */
  lemma {:induction false} RootIsExtreme(s: seq<int>, isMin: bool, k: nat)
    requires IsHeap(s, isMin) && k < |s|
    ensures !Precedes(isMin, s[k], s[0])
    decreases k
  {
    if k > 0 {
      assert BelowParent(s, k, isMin);
      RootIsExtreme(s, isMin, (k - 1) / 2);
    }
  }

  // ---------------------------------------------------------------------
  // Levels of the implicit tree

  function Pow2(k: nat): (r: nat)
    ensures r >= 1
  {
    if k == 0 then 1 else 2 * Pow2(k - 1)
  }

  /** `Math.floor(Math.log2(n))` for a positive integer `n`. */
  function Log2(n: nat): nat
    requires n >= 1
  {
    if n == 1 then 0 else 1 + Log2(n / 2)
  }

  lemma {:induction false} Log2Bounds(n: nat)
    requires n >= 1
    ensures Pow2(Log2(n)) <= n < Pow2(Log2(n) + 1)
  {
    if n > 1 {
      Log2Bounds(n / 2);
    }
  }

  /** The parent index is one level higher than the child. */
  lemma ParentLevel(i: nat)
    requires i > 0
    ensures Log2((i - 1) / 2 + 1) + 1 == Log2(i + 1)
  {
    assert (i - 1) / 2 + 1 == (i + 1) / 2;
  }
}
