/** The array heap visualizer: a plain integer array (field `heap`) kept as a binary heap,
    filled from a comma-separated input box, with the compare/swap steps of
    each sift-up emitted for playback, a clear button and a min/max toggle. */
module HeapArray {
  import opened Common
  import opened Strings
  import opened Heaps

  /** One highlight of the insertion animation: the freshly pushed index, a
      comparison of a child with its parent, or the swap of the two. */
  datatype Step = Active(index: nat) | Compare(child: nat, parent: nat) | Exchange(child: nat, parent: nat)

  // ---------------------------------------------------------------------
  // Input

  predicate AllowedChar(c: char) {
    IsDigit(c) || c == ','
  }

  predicate Sanitised(s: string) {
    forall k :: 0 <= k < |s| ==> AllowedChar(s[k])
  }

  /** `handleInputChange`: every character other than `0-9` and `,` is dropped. */
  function Sanitise(s: string): (r: string)
    ensures Sanitised(r)
    ensures |r| <= |s|
    decreases |s|
  {
    if |s| == 0 then "" else (if AllowedChar(s[0]) then [s[0]] else []) + Sanitise(s[1..])
  }

  /** The sanitiser keeps every allowed character, each as often as it occurs. */
  lemma {:induction false} SanitiseKeepsAllowed(s: string)
    ensures forall c :: AllowedChar(c) ==> multiset(Sanitise(s))[c] == multiset(s)[c]
    decreases |s|
  {
    if |s| > 0 {
      SanitiseKeepsAllowed(s[1..]);
      assert s == [s[0]] + s[1..];
      assert multiset(s) == multiset{s[0]} + multiset(s[1..]);
    }
  }

  /** An already clean string is left unchanged. */
  lemma {:induction false} SanitiseClean(s: string)
    requires Sanitised(s)
    ensures Sanitise(s) == s
    decreases |s|
  {
    if |s| > 0 {
      SanitiseClean(s[1..]);
      assert s == [s[0]] + s[1..];
    }
  }

  lemma SanitiseIdempotent(s: string)
    ensures Sanitise(Sanitise(s)) == Sanitise(s)
  {
    SanitiseClean(Sanitise(s));
  }

  /** A trimmed field survives the filter when it is a non-empty numeral. */
  predicate IsNumeral(f: string) {
    |f| > 0 && AllDigits(f)
  }

  /** The `.map(trim).filter(v !== '' && !isNaN(v)).map(parseInt)` part of
      `handleInsert`, over the fields of `split(',')`. */
  function CollectValues(fields: seq<string>): (vs: seq<int>)
    ensures |vs| <= |fields|
    ensures forall k :: 0 <= k < |vs| ==> vs[k] >= 0
    decreases |fields|
  {
    if |fields| == 0 then []
    else
      var f := Trim(fields[0]);
      (if IsNumeral(f) then [DecimalValue(f) as int] else []) + CollectValues(fields[1..])
  }

  function ParseValues(input: string): seq<int> {
    CollectValues(Split(input))
  }

  /** A kept field is converted exactly as `parseInt` reads it. */
  lemma NumeralIsParseInt(f: string)
    requires IsNumeral(f)
    ensures ParseInt(f) == Some(DecimalValue(f) as int)
  {
    ParseUnsignedOfDigits(f);
    ParseIntPositive(f, DecimalValue(f));
  }

  function Numerals(vs: seq<nat>): (fs: seq<string>)
    ensures |fs| == |vs|
    ensures forall k :: 0 <= k < |vs| ==> fs[k] == NatToString(vs[k])
  {
    if |vs| == 0 then [] else [NatToString(vs[0])] + Numerals(vs[1..])
  }

  /** Parsing inverts printing: the input `v1,v2,...,vn` yields exactly the
      numbers `v1, ..., vn`. */
  lemma {:induction false} ParseJoinedNumerals(vs: seq<nat>)
    requires |vs| >= 1
    ensures ParseValues(Join(Numerals(vs))) == vs
    decreases |vs|
  {
    var head := NatToString(vs[0]);
    NumeralField(vs[0]);
    if |vs| == 1 {
      assert Numerals(vs) == [head];
      assert Join([head]) == head;
      SplitOfNumeral(head);
      CollectNumeral(vs[0], []);
      assert CollectValues([]) == [];
    } else {
      var rest := Numerals(vs[1..]);
      assert Numerals(vs) == [head] + rest;
      JoinCons(head, rest);
      SplitAfterNumeral(head, Join(rest));
      CollectNumeral(vs[0], Split(Join(rest)));
      ParseJoinedNumerals(vs[1..]);
      calc {
        ParseValues(Join(Numerals(vs)));
        CollectValues(Split(head + "," + Join(rest)));
        CollectValues([head] + Split(Join(rest)));
        [vs[0] as int] + CollectValues(Split(Join(rest)));
        { assert CollectValues(Split(Join(rest))) == ParseValues(Join(Numerals(vs[1..]))); }
        [vs[0] as int] + vs[1..];
      }
      assert vs == [vs[0]] + vs[1..];
    }
  }

  /** A printed number as the first field reads back as that number. */
  lemma CollectNumeral(n: nat, fields: seq<string>)
    ensures CollectValues([NatToString(n)] + fields) == [n as int] + CollectValues(fields)
  {
    NumeralField(n);
    CollectCons(NatToString(n), fields);
  }

  lemma NumeralField(n: nat)
    ensures Trim(NatToString(n)) == NatToString(n) && IsNumeral(NatToString(n))
    ensures DecimalValue(NatToString(n)) == n
  {
    DecimalOfNatToString(n);
    TrimNoWhitespace(NatToString(n));
  }

  lemma JoinCons(f: string, fields: seq<string>)
    requires |fields| >= 1
    ensures Join([f] + fields) == f + "," + Join(fields)
  {
    assert ([f] + fields)[1..] == fields;
  }

  lemma CollectCons(f: string, fields: seq<string>)
    ensures CollectValues([f] + fields) ==
            (if IsNumeral(Trim(f)) then [DecimalValue(Trim(f)) as int] else []) + CollectValues(fields)
  {
    assert ([f] + fields)[1..] == fields;
  }

  lemma {:induction false} SplitOfNumeral(d: string)
    requires AllDigits(d)
    ensures Split(d) == [d]
    decreases |d|
  {
    if |d| > 0 {
      SplitOfNumeral(d[1..]);
      assert [d[0]] + d[1..] == d;
    }
  }

  lemma {:induction false} SplitAfterNumeral(d: string, rest: string)
    requires AllDigits(d)
    ensures Split(d + "," + rest) == [d] + Split(rest)
    decreases |d|
  {
    var s := d + "," + rest;
    if |d| == 0 {
      assert s[0] == ',' && s[1..] == rest;
    } else {
      assert s[0] == d[0] && s[1..] == d[1..] + "," + rest;
      SplitAfterNumeral(d[1..], rest);
      assert [d[0]] + d[1..] == d;
    }
  }

  // ---------------------------------------------------------------------
  // Insertion

  /** The heap after pushing and sifting up each value in turn. */
  function InsertAll(a: seq<int>, vs: seq<int>, isMin: bool): (r: seq<int>)
    ensures |r| == |a| + |vs|
    decreases |vs|
  {
    if |vs| == 0 then a
    else InsertValue(InsertAll(a, vs[..|vs| - 1], isMin), vs[|vs| - 1], isMin)
  }

  /** Inserting keeps every value already held and adds exactly the new ones. */
  lemma {:induction false} InsertAllPermutes(a: seq<int>, vs: seq<int>, isMin: bool)
    ensures multiset(InsertAll(a, vs, isMin)) == multiset(a) + multiset(vs)
    decreases |vs|
  {
    if |vs| > 0 {
      var front := vs[..|vs| - 1];
      InsertAllPermutes(a, front, isMin);
      InsertValuePermutes(InsertAll(a, front, isMin), vs[|vs| - 1], isMin);
      assert vs == front + [vs[|vs| - 1]];
    }
  }

  /** The comparisons and swaps one sift-up from index `i` shows. */
  function SiftUpTrace(s: seq<int>, i: nat, isMin: bool): seq<Step>
    requires i < |s|
    decreases i
  {
    if i == 0 then []
    else
      var p := (i - 1) / 2;
      if Precedes(isMin, s[i], s[p]) then [Compare(i, p), Exchange(i, p)] + SiftUpTrace(Swap(s, i, p), p, isMin)
      else [Compare(i, p)]
  }

  /** The steps of one insertion into `s`: the pushed index is highlighted,
      then sifted up. */
  function InsertStepTrace(s: seq<int>, v: int, isMin: bool): seq<Step> {
    [Active(|s|)] + SiftUpTrace(s + [v], |s|, isMin)
  }

  /** All highlight steps of inserting `vs` one after another. */
  function InsertTrace(a: seq<int>, vs: seq<int>, isMin: bool): seq<Step>
    decreases |vs|
  {
    if |vs| == 0 then []
    else
      var n := |vs| - 1;
      InsertTrace(a, vs[..n], isMin) + InsertStepTrace(InsertAll(a, vs[..n], isMin), vs[n], isMin)
  }

  /** The number of swaps in a trace. */
  function Swaps(t: seq<Step>): nat
    decreases |t|
  {
    if |t| == 0 then 0 else (if t[0].Exchange? then 1 else 0) + Swaps(t[1..])
  }

  /** A step of a sift-up only ever pairs an index with its parent. */
  predicate PairsWithParent(st: Step) {
    match st
    case Active(_) => false
    case Compare(c, p) => c > 0 && p == (c - 1) / 2
    case Exchange(c, p) => c > 0 && p == (c - 1) / 2
  }

  lemma SwapsCons(st: Step, t: seq<Step>)
    ensures Swaps([st] + t) == (if st.Exchange? then 1 else 0) + Swaps(t)
  {
    assert ([st] + t)[1..] == t;
  }

  /** A sift-up from `i` compares and swaps only an index with its parent,
      and the indices it visits never exceed `i`. */
  lemma {:induction false} SiftUpTracePairs(s: seq<int>, i: nat, isMin: bool)
    requires i < |s|
    ensures forall st :: st in SiftUpTrace(s, i, isMin) ==> PairsWithParent(st) && st.child <= i
    decreases i
  {
    if i > 0 {
      var p := (i - 1) / 2;
      if Precedes(isMin, s[i], s[p]) {
        SiftUpTracePairs(Swap(s, i, p), p, isMin);
      }
    }
  }

  /** A sift-up from `i` swaps at most `floor(log2(i+1))` times, the depth of
      `i`: its cursor moves one level up at each swap. */
  lemma {:induction false} SiftUpSwapBound(s: seq<int>, i: nat, isMin: bool)
    requires i < |s|
    ensures Swaps(SiftUpTrace(s, i, isMin)) <= Log2(i + 1)
    decreases i
  {
    if i > 0 {
      var p := (i - 1) / 2;
      if Precedes(isMin, s[i], s[p]) {
        var t := Swap(s, i, p);
        SiftUpSwapBound(t, p, isMin);
        ParentLevel(i);
        SwapsOfExchange(i, p, SiftUpTrace(t, p, isMin));
      } else {
        SwapsCons(Compare(i, p), []);
      }
    }
  }

  lemma SwapsOfExchange(i: nat, p: nat, rest: seq<Step>)
    ensures Swaps([Compare(i, p), Exchange(i, p)] + rest) == 1 + Swaps(rest)
  {
    assert [Compare(i, p), Exchange(i, p)] + rest == [Compare(i, p)] + ([Exchange(i, p)] + rest);
    SwapsCons(Compare(i, p), [Exchange(i, p)] + rest);
    SwapsCons(Exchange(i, p), rest);
  }

  lemma InsertAllSnoc(a: seq<int>, vs: seq<int>, v: int, isMin: bool)
    ensures InsertAll(a, vs + [v], isMin) == InsertValue(InsertAll(a, vs, isMin), v, isMin)
  {
    assert (vs + [v])[..|vs|] == vs;
  }

  lemma InsertTraceSnoc(a: seq<int>, vs: seq<int>, v: int, isMin: bool)
    ensures InsertTrace(a, vs + [v], isMin) == InsertTrace(a, vs, isMin) + InsertStepTrace(InsertAll(a, vs, isMin), v, isMin)
  {
    assert (vs + [v])[..|vs|] == vs;
  }

  /** Inserting into a heap keeps it a heap. */
  lemma {:induction false} InsertAllKeepsHeap(a: seq<int>, vs: seq<int>, isMin: bool)
    requires IsHeap(a, isMin)
    ensures IsHeap(InsertAll(a, vs, isMin), isMin)
    decreases |vs|
  {
    if |vs| > 0 {
      InsertAllKeepsHeap(a, vs[..|vs| - 1], isMin);
      InsertKeepsHeap(InsertAll(a, vs[..|vs| - 1], isMin), vs[|vs| - 1], isMin);
    }
  }

  /** Re-inserting the values of a heap in positional order under the same
      comparator rebuilds it unchanged: every value is already below its parent. */
  lemma RebuildHeapUnchanged(s: seq<int>, isMin: bool)
    requires IsHeap(s, isMin)
    ensures InsertAll([], s, isMin) == s
  {
    RebuildPrefix(s, |s|, isMin);
    assert s[..|s|] == s;
  }

  /** Each prefix of a heap is rebuilt unchanged. */
  lemma {:induction false} RebuildPrefix(s: seq<int>, k: nat, isMin: bool)
    requires IsHeap(s, isMin) && k <= |s|
    ensures InsertAll([], s[..k], isMin) == s[..k]
    decreases k
  {
    if k > 0 {
      RebuildPrefix(s, k - 1, isMin);
      RebuildStep(s, k, isMin);
    }
  }

  lemma TakeSnoc(s: seq<int>, k: nat)
    requires 0 < k <= |s|
    ensures s[..k] == s[..k - 1] + [s[k - 1]]
  {
  }

  lemma RebuildStep(s: seq<int>, k: nat, isMin: bool)
    requires IsHeap(s, isMin) && 0 < k <= |s|
    requires InsertAll([], s[..k - 1], isMin) == s[..k - 1]
    ensures InsertAll([], s[..k], isMin) == s[..k]
  {
    var p := s[..k - 1];
    TakeSnoc(s, k);
    if k - 1 > 0 {
      assert BelowParent(s, k - 1, isMin);
      assert p[(|p| - 1) / 2] == s[(k - 2) / 2];
    }
    InsertOrderedAppends(p, s[k - 1], isMin);
    InsertAllSnoc([], p, s[k - 1], isMin);
  }

  /** The input `5,3,8,1` yields the values 5, 3, 8 and 1 ... */
  lemma ParseExample()
    ensures ParseValues("5,3,8,1") == [5, 3, 8, 1]
  {
    ParseJoinedNumerals([5, 3, 8, 1]);
    ExampleNumerals();
    ExampleJoin();
  }

  lemma ExampleNumerals()
    ensures Numerals([5, 3, 8, 1]) == ["5", "3", "8", "1"]
  {
    assert NatToString(5) == "5" && NatToString(3) == "3";
    assert NatToString(8) == "8" && NatToString(1) == "1";
  }

  lemma ExampleJoin()
    ensures Join(["5", "3", "8", "1"]) == "5,3,8,1"
  {
    var fs := ["5", "3", "8", "1"];
    assert fs[1..] == ["3", "8", "1"] && fs[1..][1..] == ["8", "1"] && fs[1..][1..][1..] == ["1"];
    assert Join(["8", "1"]) == "8,1";
    assert Join(["3", "8", "1"]) == "3,8,1";
  }

  lemma InsertPrefixExample()
    ensures InsertAll([], [5, 3, 8], false) == [8, 3, 5]
  {
  }

  /** ... and inserting them into an empty max-heap gives `[8, 3, 5, 1]`:
      only 8 moves, to the root. */
  lemma InsertExample()
    ensures InsertAll([], [5, 3, 8, 1], false) == [8, 3, 5, 1]
  {
    InsertPrefixExample();
    InsertAllSnoc([], [5, 3, 8], 1, false);
    assert [5, 3, 8] + [1] == [5, 3, 8, 1];
  }

  /** Toggling to max mode rebuilds `[1, 2]` under the old min comparator, so
      the heap is left unchanged and is not a max-heap for the new flag. */
  lemma ToggleKeepsOldOrderExample()
    ensures InsertAll([], [1, 2], true) == [1, 2]
    ensures !IsHeap([1, 2], false)
  {
    assert [1, 2][..1] == [1];
    assert !BelowParent([1, 2], 1, false);
  }

  // ---------------------------------------------------------------------
  // One round of the sift-up loops, as the handlers take it

  lemma SiftUpSwapStep(s: seq<int>, i: nat, isMin: bool)
    requires 0 < i < |s| && Precedes(isMin, s[i], s[(i - 1) / 2])
    ensures SiftUp(s, i, isMin) == SiftUp(Swap(s, i, (i - 1) / 2), (i - 1) / 2, isMin)
    ensures SiftUpTrace(s, i, isMin) ==
            [Compare(i, (i - 1) / 2), Exchange(i, (i - 1) / 2)] + SiftUpTrace(Swap(s, i, (i - 1) / 2), (i - 1) / 2, isMin)
  {
  }

  lemma SiftUpStopStep(s: seq<int>, i: nat, isMin: bool)
    requires 0 < i < |s| && !Precedes(isMin, s[i], s[(i - 1) / 2])
    ensures SiftUp(s, i, isMin) == s
    ensures SiftUpTrace(s, i, isMin) == [Compare(i, (i - 1) / 2)]
  {
  }

  lemma SiftUpAtRoot(s: seq<int>, isMin: bool)
    requires |s| > 0
    ensures SiftUp(s, 0, isMin) == s && SiftUpTrace(s, 0, isMin) == []
  {
  }

  /** One more round of the insertion loop. */
  lemma InsertNext(a: seq<int>, vs: seq<int>, n: nat, isMin: bool)
    requires n < |vs|
    ensures InsertAll(a, vs[..n + 1], isMin) == InsertValue(InsertAll(a, vs[..n], isMin), vs[n], isMin)
    ensures InsertTrace(a, vs[..n + 1], isMin) ==
            InsertTrace(a, vs[..n], isMin) + InsertStepTrace(InsertAll(a, vs[..n], isMin), vs[n], isMin)
  {
    TakeNext(vs, n);
    InsertAllSnoc(a, vs[..n], vs[n], isMin);
    InsertTraceSnoc(a, vs[..n], vs[n], isMin);
  }

  lemma TakeNext(s: seq<int>, k: nat)
    requires k < |s|
    ensures s[..k + 1] == s[..k] + [s[k]]
  {
  }

  lemma Regroup2(a: seq<Step>, x: Step, y: Step, t: seq<Step>)
    ensures ((a + [x]) + [y]) + t == a + ([x, y] + t)
  {
  }

  lemma AppendNothing(a: seq<Step>)
    ensures a + [] == a
  {
  }

  // ---------------------------------------------------------------------
  // The visualizer's state and handlers

  class HeapArrayVisualizer {
    var heap: seq<int>
    var inputValue: string
    var activeIndex: Option<nat>
    var comparingIndices: seq<nat>
    var swappingIndices: seq<nat>
    var isMinHeap: bool

    /** Between handlers the input box holds only sanitised text and no
        highlight is pending. */
    ghost predicate Valid()
      reads this
    {
      Sanitised(inputValue) && activeIndex == None && comparingIndices == [] && swappingIndices == []
    }

    constructor ()
      ensures Valid() && heap == [] && inputValue == "" && isMinHeap
    {
      heap := [];
      inputValue := "";
      activeIndex := None;
      comparingIndices := [];
      swappingIndices := [];
      isMinHeap := true;
    }

    method HandleInputChange(typed: string)
      requires Valid()
      modifies this
      ensures Valid()
      ensures inputValue == Sanitise(typed)
      ensures heap == old(heap) && isMinHeap == old(isMinHeap)
    {
      inputValue := Sanitise(typed);
    }

    /** Parses the input and inserts each value with a sift-up, returning the
        highlight steps in the order they are shown. Nothing changes when no
        value parses; otherwise the input box is emptied. */
    method HandleInsert() returns (steps: seq<Step>)
      requires Valid()
      modifies this
      ensures Valid() && isMinHeap == old(isMinHeap)
      ensures ParseValues(old(inputValue)) == [] ==>
                heap == old(heap) && inputValue == old(inputValue) && steps == []
      ensures ParseValues(old(inputValue)) != [] ==>
                heap == InsertAll(old(heap), ParseValues(old(inputValue)), isMinHeap)
                && steps == InsertTrace(old(heap), ParseValues(old(inputValue)), isMinHeap)
                && inputValue == ""
    {
      var values := ParseValues(inputValue);
      steps := [];
      if |values| == 0 {
        return;
      }
      steps := InsertValues(values);
      inputValue := "";
    }

    /** The insertion loop of `handleInsert`: each value is pushed, highlighted
        and sifted up, one comparison and swap at a time. */
    method InsertValues(values: seq<int>) returns (steps: seq<Step>)
      requires Valid()
      modifies this
      ensures Valid() && isMinHeap == old(isMinHeap) && inputValue == old(inputValue)
      ensures heap == InsertAll(old(heap), values, isMinHeap)
      ensures steps == InsertTrace(old(heap), values, isMinHeap)
    {
      steps := [];
      ghost var start := heap;
      for n := 0 to |values|
        invariant heap == InsertAll(start, values[..n], isMinHeap)
        invariant steps == InsertTrace(start, values[..n], isMinHeap)
        invariant Valid() && inputValue == old(inputValue) && isMinHeap == old(isMinHeap)
      {
        var trace := InsertOne(values[n]);
        steps := steps + trace;
        InsertNext(start, values, n, isMinHeap);
      }
      assert values[..|values|] == values;
    }

    /** One pass of the outer loop of `handleInsert`: push the value, mark
        it, sift it up, clear the marks. */
    method InsertOne(value: int) returns (trace: seq<Step>)
      requires Valid()
      modifies this
      ensures Valid() && isMinHeap == old(isMinHeap) && inputValue == old(inputValue)
      ensures heap == InsertValue(old(heap), value, isMinHeap)
      ensures trace == InsertStepTrace(old(heap), value, isMinHeap)
    {
      ghost var prev := heap;
      var newArray := heap + [value];
      heap := newArray;
      var pushedIndex := |newArray| - 1;
      assert pushedIndex == |prev|;
      activeIndex := Some(pushedIndex);
      var sifted := SiftUpLast(prev, value);
      trace := [Active(pushedIndex)] + sifted;
      activeIndex := None;
      comparingIndices := [];
    }

    /** The inner loop of `handleInsert`: the last element walks up while it
        precedes its parent; each comparison and each swap is highlighted. */
    method SiftUpLast(ghost prev: seq<int>, ghost value: int) returns (trace: seq<Step>)
      requires heap == prev + [value] && swappingIndices == []
      modifies this
      ensures heap == InsertValue(prev, value, isMinHeap)
      ensures trace == SiftUpTrace(prev + [value], |prev|, isMinHeap)
      ensures swappingIndices == [] && activeIndex == old(activeIndex)
      ensures inputValue == old(inputValue) && isMinHeap == old(isMinHeap)
    {
      var newArray := heap;
      var currentIndex: nat := |newArray| - 1;
      assert currentIndex == |prev|;
      trace := [];
      while currentIndex > 0
        invariant currentIndex < |newArray|
        invariant SiftUp(newArray, currentIndex, isMinHeap) == InsertValue(prev, value, isMinHeap)
        invariant trace + SiftUpTrace(newArray, currentIndex, isMinHeap) == SiftUpTrace(prev + [value], |prev|, isMinHeap)
        invariant heap == newArray && swappingIndices == []
        invariant activeIndex == old(activeIndex) && inputValue == old(inputValue) && isMinHeap == old(isMinHeap)
      {
        var parentIndex := (currentIndex - 1) / 2;
        comparingIndices := [currentIndex, parentIndex];
        var shouldSwap := if isMinHeap then newArray[currentIndex] < newArray[parentIndex]
                          else newArray[currentIndex] > newArray[parentIndex];
        if !shouldSwap {
          SiftUpStopStep(newArray, currentIndex, isMinHeap);
          trace := trace + [Compare(currentIndex, parentIndex)];
          break;
        }
        SiftUpSwapStep(newArray, currentIndex, isMinHeap);
        Regroup2(trace, Compare(currentIndex, parentIndex), Exchange(currentIndex, parentIndex),
                 SiftUpTrace(Swap(newArray, currentIndex, parentIndex), parentIndex, isMinHeap));
        trace := trace + [Compare(currentIndex, parentIndex)];
        swappingIndices := [currentIndex, parentIndex];
        trace := trace + [Exchange(currentIndex, parentIndex)];
        newArray := Swap(newArray, currentIndex, parentIndex);
        heap := newArray;
        swappingIndices := [];
        currentIndex := parentIndex;
      }
      if currentIndex == 0 {
        SiftUpAtRoot(newArray, isMinHeap);
        AppendNothing(trace);
      }
    }

    method HandleClear()
      modifies this
      ensures heap == [] && activeIndex == None && comparingIndices == [] && swappingIndices == []
      ensures inputValue == old(inputValue) && isMinHeap == old(isMinHeap)
    {
      heap := [];
      activeIndex := None;
      comparingIndices := [];
      swappingIndices := [];
    }

    /** Flips the mode flag, then rebuilds by re-inserting the values in
        positional order under the comparator of the mode before the flip
        (the handler reads the flag it captured when it started). */
    method ToggleHeapType()
      requires Valid()
      modifies this
      ensures Valid()
      ensures isMinHeap == !old(isMinHeap)
      ensures heap == InsertAll([], old(heap), old(isMinHeap))
      ensures inputValue == old(inputValue)
    {
      var wasMinHeap := isMinHeap;
      isMinHeap := !isMinHeap;
      if |heap| > 0 {
        var values := heap;
        HandleClear();
        var newArray := [];
        for n := 0 to |values|
          invariant newArray == InsertAll([], values[..n], wasMinHeap)
          invariant heap == newArray
          invariant Valid() && inputValue == old(inputValue) && isMinHeap == !wasMinHeap
        {
          ghost var prev := newArray;
          var value := values[n];
          newArray := newArray + [value];
          heap := newArray;
          newArray := RebuildSiftUp(newArray, prev, value, wasMinHeap);
          TakeNext(values, n);
          InsertAllSnoc([], values[..n], value, wasMinHeap);
        }
        assert values[..|values|] == values;
      }
    }

    /** The inner loop of the rebuild: sifts the value just pushed up under
        the comparator `wasMinHeap`, showing every swap. */
    method RebuildSiftUp(pushed: seq<int>, ghost prev: seq<int>, ghost value: int, wasMinHeap: bool) returns (newArray: seq<int>)
      requires pushed == prev + [value] && heap == pushed
      modifies this
      ensures newArray == InsertValue(prev, value, wasMinHeap) && heap == newArray
      ensures inputValue == old(inputValue) && isMinHeap == old(isMinHeap) && activeIndex == old(activeIndex)
      ensures comparingIndices == old(comparingIndices) && swappingIndices == old(swappingIndices)
    {
      newArray := pushed;
      var currentIndex: nat := |newArray| - 1;
      while currentIndex > 0
        invariant currentIndex < |newArray|
        invariant SiftUp(newArray, currentIndex, wasMinHeap) == InsertValue(prev, value, wasMinHeap)
        invariant heap == newArray
        invariant inputValue == old(inputValue) && isMinHeap == old(isMinHeap) && activeIndex == old(activeIndex)
        invariant comparingIndices == old(comparingIndices) && swappingIndices == old(swappingIndices)
      {
        var parentIndex := (currentIndex - 1) / 2;
        var shouldSwap := if wasMinHeap then newArray[currentIndex] < newArray[parentIndex]
                          else newArray[currentIndex] > newArray[parentIndex];
        if !shouldSwap {
          SiftUpStopStep(newArray, currentIndex, wasMinHeap);
          return;
        }
        SiftUpSwapStep(newArray, currentIndex, wasMinHeap);
        newArray := Swap(newArray, currentIndex, parentIndex);
        heap := newArray;
        currentIndex := parentIndex;
      }
      SiftUpAtRoot(newArray, wasMinHeap);
    }
  }
}
