/** The quicksort of src/qsort_mod.c on elements of any size: an explicit stack, segments of up to five elements
    left to an insertion sort that relies on a sentinel. */
module Quicksort {
  import opened ElementRows
  import opened Powers
  import opened SortFacts

  type Compare<!B> = (seq<B>, seq<B>) -> int

  /** Swaps two elements of an array that permutes `s` between `lo` and `hi`. */
  method SwapElement<B>(m: array2<B>, i: nat, j: nat, ghost s: seq<seq<B>>, ghost lo: nat, ghost hi: nat)
    requires i < m.Length0 && j < m.Length0 && lo <= i <= hi && lo <= j <= hi && PermutedWithin(s, Rows(m), lo, hi)
    modifies m
    ensures Rows(m) == Swapped(old(Rows(m)), i, j) && PermutedWithin(s, Rows(m), lo, hi)
  {
    SwapWithin(s, Rows(m), i, j, lo, hi);
    SwapRows(m, i, j);
  }

  /** Swaps the elements at `i` and `j` if they are out of order. */
  method CompareSwap<B(!new)>(m: array2<B>, cmp: Compare<B>, i: nat, j: nat, ghost s: seq<seq<B>>, ghost lo: nat,
      ghost hi: nat)
      returns (swapped: bool)
    requires i < m.Length0 && j < m.Length0 && lo <= i <= hi && lo <= j <= hi && i != j
      && PermutedWithin(s, Rows(m), lo, hi)
    requires TotalPreorder(cmp)
    modifies m
    ensures Rows(m) == (if swapped then Swapped(old(Rows(m)), j, i) else old(Rows(m)))
      && PermutedWithin(s, Rows(m), lo, hi)
    ensures Le(cmp, Rows(m)[i], Rows(m)[j]) && (swapped <==> cmp(old(Rows(m))[j], old(Rows(m))[i]) < 0)
  {
    Total(cmp, Rows(m)[i], Rows(m)[j]);
    swapped := cmp(Row(m, j), Row(m, i)) < 0;
    if swapped {
      SwapElement(m, j, i, s, lo, hi);
    }
  }

  /** Orders the elements at `lo`, `mid` and `hi`. */
  method MedianOfThree<B(!new)>(m: array2<B>, cmp: Compare<B>, lo: nat, mid: nat, hi: nat)
    requires lo < mid < hi < m.Length0 && TotalPreorder(cmp)
    modifies m
    ensures PermutedWithin(old(Rows(m)), Rows(m), lo, hi)
    ensures Le(cmp, Rows(m)[lo], Rows(m)[mid]) && Le(cmp, Rows(m)[mid], Rows(m)[hi])
  {
    ghost var s := Rows(m);
    var swapped := CompareSwap(m, cmp, lo, mid, s, lo, hi);
    swapped := CompareSwap(m, cmp, mid, hi, s, lo, hi);
    if swapped {
      swapped := CompareSwap(m, cmp, lo, mid, s, lo, hi);
    }
  }

  /** First element from `from` on that is not less than the pivot. */
  method ScanRight<B(!new)>(m: array2<B>, cmp: Compare<B>, from: nat, hi: nat, mid: nat) returns (left: nat)
    requires from <= hi < m.Length0 && mid < m.Length0 && Le(cmp, Rows(m)[mid], Rows(m)[hi])
    ensures from <= left <= hi && Le(cmp, Rows(m)[mid], Rows(m)[left])
    ensures forall k :: from <= k < left ==> cmp(Rows(m)[k], Rows(m)[mid]) < 0
  {
    ghost var s := Rows(m);
    left := from;
    while cmp(Row(m, left), Row(m, mid)) < 0
      invariant from <= left <= hi
      invariant forall k :: from <= k < left ==> cmp(s[k], s[mid]) < 0
      decreases hi - left
    {
      left := left + 1;
    }
  }

  /** Last element up to `from` that is not greater than the pivot. */
  method ScanLeft<B(!new)>(m: array2<B>, cmp: Compare<B>, lo: nat, from: nat, mid: nat) returns (right: nat)
    requires lo <= from < m.Length0 && mid < m.Length0 && Le(cmp, Rows(m)[lo], Rows(m)[mid])
    ensures lo <= right <= from && Le(cmp, Rows(m)[right], Rows(m)[mid])
    ensures forall k :: right < k <= from ==> cmp(Rows(m)[mid], Rows(m)[k]) < 0
  {
    ghost var s := Rows(m);
    right := from;
    while cmp(Row(m, mid), Row(m, right)) < 0
      invariant lo <= right <= from
      invariant forall k :: right < k <= from ==> cmp(s[mid], s[k]) < 0
      decreases right
    {
      right := right - 1;
    }
  }

  /** Both scans: they meet, or stop at two elements to exchange. */
  method Scan<B(!new)>(m: array2<B>, cmp: Compare<B>, lo: nat, hi: nat, mid: nat, l0: nat, r0: nat)
      returns (left: nat, right: nat)
    requires Collapsing(cmp, Rows(m), lo, hi, mid, l0, r0) && l0 <= r0
    ensures l0 <= left <= hi && lo <= right <= r0 && left <= right + 1
    ensures Le(cmp, Rows(m)[mid], Rows(m)[left]) && Le(cmp, Rows(m)[right], Rows(m)[mid])
    ensures forall k :: lo <= k < left ==> Le(cmp, Rows(m)[k], Rows(m)[mid])
    ensures forall k :: right < k <= hi ==> Le(cmp, Rows(m)[mid], Rows(m)[k])
  {
    ghost var s := Rows(m);
    left := ScanRight(m, cmp, l0, hi, mid);
    right := ScanLeft(m, cmp, lo, r0, mid);
    ScansMeet(cmp, s, lo, hi, s[mid], l0, r0, right, left);
    ScannedLe(cmp, s, lo, hi, mid, l0, r0, right, left);
  }

  /** The two elements are exchanged; the pivot may be one of them. */
  method Exchange<B(!new)>(m: array2<B>, cmp: Compare<B>, lo: nat, hi: nat, mid0: nat, left: nat, right: nat,
      ghost s: seq<seq<B>>)
      returns (mid: nat)
    requires TotalPreorder(cmp) && lo < mid0 < hi < m.Length0 && lo < left < right < hi
      && PermutedWithin(s, Rows(m), lo, hi)
    requires Le(cmp, Rows(m)[mid0], Rows(m)[left]) && Le(cmp, Rows(m)[right], Rows(m)[mid0])
    requires forall k :: lo <= k < left ==> Le(cmp, Rows(m)[k], Rows(m)[mid0])
    requires forall k :: right < k <= hi ==> Le(cmp, Rows(m)[mid0], Rows(m)[k])
    modifies m
    ensures Collapsing(cmp, Rows(m), lo, hi, mid, left + 1, right - 1) && Rows(m)[mid] == old(Rows(m))[mid0]
    ensures PermutedWithin(s, Rows(m), lo, hi)
  {
    SwapCollapsing(cmp, Rows(m), lo, hi, mid0, left, right);
    SwapElement(m, left, right, s, lo, hi);
    mid := mid0;
    if mid == left {
      mid := right;
    } else if mid == right {
      mid := left;
    }
  }

  /** The loop that collapses the walls. The elements at `lo` and `hi` stop the unguarded scans. */
  method Collapse<B(!new)>(m: array2<B>, cmp: Compare<B>, lo: nat, mid0: nat, hi: nat)
      returns (right: int, left: int, ghost v: seq<B>)
    requires lo < mid0 < hi < m.Length0 && TotalPreorder(cmp)
    requires Le(cmp, Rows(m)[lo], Rows(m)[mid0]) && Le(cmp, Rows(m)[mid0], Rows(m)[hi])
    modifies m
    ensures PermutedWithin(old(Rows(m)), Rows(m), lo, hi) && Split(cmp, Rows(m), lo, hi, v, right, left)
  {
    ghost var s := Rows(m);
    var mid := mid0;
    v := s[mid];
    left, right := lo + 1, hi - 1;
    CollapseStart(cmp, s, lo, hi, mid);
    while true
      invariant 0 <= left <= right && 0 <= mid && Collapsing(cmp, Rows(m), lo, hi, mid, left, right)
        && Rows(m)[mid] == v
      invariant PermutedWithin(s, Rows(m), lo, hi)
      decreases right - left
    {
      left, right := Scan(m, cmp, lo, hi, mid, left, right);
      if left < right {
        mid := Exchange(m, cmp, lo, hi, mid, left, right, s);
        left, right := left + 1, right - 1;
      } else if left == right {
        left, right := left + 1, right - 1;
        break;
      }
      if left > right {
        break;
      }
    }
  }

  /** What goes on the stack and what comes next, after a split. */
  method Choose(stack: array<StackNode>, top0: nat, lo: nat, hi: nat, right: nat, left: nat)
      returns (top: nat, cur: StackNode, ghost parts: seq<StackNode>)
    requires 1 <= top0 < stack.Length && stack[0] == Null && lo <= right < left <= hi
    modifies stack
    ensures top <= stack.Length && stack[0] == Null && (top == 0 ==> cur == Null)
    ensures Parts(parts, lo, hi, right, left) && SmallerLast(parts)
    ensures Live(stack[..], top, cur) == old(stack[1..top0]) + parts
  {
    top := top0;
    if right - lo <= MAX_THRESH {
      if hi - left <= MAX_THRESH {
        top := top - 1;
        cur := stack[top];
        parts := [];
      } else {
        cur := Node(left, hi);
        parts := [cur];
      }
    } else if hi - left <= MAX_THRESH {
      cur := Node(lo, right);
      parts := [cur];
    } else if right - lo > hi - left {
      stack[top] := Node(lo, right);
      top := top + 1;
      cur := Node(left, hi);
      parts := [Node(lo, right), cur];
    } else {
      stack[top] := Node(left, hi);
      top := top + 1;
      cur := Node(lo, right);
      parts := [Node(left, hi), cur];
    }
  }

  /** One segment is split around the median of three of its elements. */
  method SplitSegment<B(!new)>(m: array2<B>, cmp: Compare<B>, lo: nat, hi: nat)
      returns (right: int, left: int, ghost v: seq<B>)
    requires lo + 2 <= hi < m.Length0 && TotalPreorder(cmp)
    modifies m
    ensures PermutedWithin(old(Rows(m)), Rows(m), lo, hi) && Split(cmp, Rows(m), lo, hi, v, right, left)
  {
    var mid := lo + (hi - lo) / 2;
    ghost var s := Rows(m);
    MedianOfThree(m, cmp, lo, mid, hi);
    ghost var t := Rows(m);
    right, left, v := Collapse(m, cmp, lo, mid, hi);
    PermutedTwice(s, t, Rows(m), lo, hi);
  }

  /** One round of the quicksort loop. */
  method Round<B(!new)>(m: array2<B>, cmp: Compare<B>, stack: array<StackNode>, top0: nat, cur0: StackNode,
      ghost segs0: seq<StackNode>)
      returns (top: nat, cur: StackNode, ghost segs: seq<StackNode>)
    requires TotalPreorder(cmp) && m.Length0 < Pow2(STACK_SIZE)
    requires Sorting(cmp, Rows(m), segs0, stack[..], top0, cur0) && top0 > 0
    modifies m, stack
    ensures Sorting(cmp, Rows(m), segs, stack[..], top, cur) && (top == 0 ==> cur == Null)
    ensures multiset(Rows(m)) == multiset(old(Rows(m))) && Work(segs) < Work(segs0)
  {
    ghost var s, rest := Rows(m), stack[1..top0];
    Current(cmp, s, segs0, stack[..], top0, cur0);
    var lo, hi := cur0.lo, cur0.hi;
    var right, left;
    ghost var v, parts;
    right, left, v := SplitSegment(m, cmp, lo, hi);
    ghost var t := Rows(m);
    top, cur, parts := Choose(stack, top0, lo, hi, right, left);
    assert Rows(m) == t;
    RoundKeeps(cmp, s, t, rest, lo, hi, v, right, left, parts);
    segs := rest + parts;
  }

  /** The quicksort phase: it ends when `Null` is popped, with no element more than four places off. */
  method SortSegments<B(!new)>(m: array2<B>, cmp: Compare<B>)
    requires MAX_THRESH < m.Length0 < Pow2(STACK_SIZE) && TotalPreorder(cmp)
    modifies m
    ensures multiset(Rows(m)) == multiset(old(Rows(m))) && NearlySorted(cmp, Rows(m))
  {
    var stack := new StackNode[STACK_SIZE](_ => Null);
    var top, cur := 1, Node(0, m.Length0 - 1);
    ghost var segs := [cur];
    SegmentsStart(cmp, Rows(m));
    assert Size(segs[0]) * Pow2(0) <= m.Length0;
    assert stack[1..1] == [];
    while top > 0
      invariant fresh(stack) && 0 <= top && Sorting(cmp, Rows(m), segs, stack[..], top, cur)
      invariant multiset(Rows(m)) == multiset(old(Rows(m)))
      decreases Work(segs)
    {
      top, cur, segs := Round(m, cmp, stack, top, cur, segs);
    }
    CoveredNearly(cmp, Rows(m));
  }

  // --- Insertion sort ---

  /** The place of the smallest of the first elements, up to `thresh`. */
  method FindLeast<B(!new)>(m: array2<B>, cmp: Compare<B>, thresh: nat) returns (tmp: nat)
    requires thresh < m.Length0 && TotalPreorder(cmp)
    ensures tmp <= thresh && forall k :: 0 <= k <= thresh ==> Le(cmp, Rows(m)[tmp], Rows(m)[k])
  {
    ghost var s := Rows(m);
    tmp := 0;
    Total(cmp, s[0], s[0]);
    for run := 1 to thresh + 1
      invariant 0 <= tmp < run && forall k :: 0 <= k < run ==> Le(cmp, s[tmp], s[k])
    {
      LeastNext(cmp, s, tmp, run);
      if cmp(Row(m, run), Row(m, tmp)) < 0 {
        tmp := run;
      }
    }
  }

  /** Finds the smallest of the first elements and places it first, where it is the smallest of all. */
  method PlaceSentinel<B(!new)>(m: array2<B>, cmp: Compare<B>)
    requires m.Length0 > 0 && TotalPreorder(cmp) && NearlySorted(cmp, Rows(m))
    modifies m
    ensures multiset(Rows(m)) == multiset(old(Rows(m))) && Least(cmp, Rows(m))
  {
    ghost var s := Rows(m);
    var thresh := if m.Length0 - 1 < MAX_THRESH then m.Length0 - 1 else MAX_THRESH;
    var tmp := FindLeast(m, cmp, thresh);
    assert Rows(m) == s;
    LeastOfAll(cmp, s, tmp, thresh);
    if tmp != 0 {
      SwapElement(m, tmp, 0, s, 0, m.Length0 - 1);
      LeastSwapped(cmp, s, Rows(m), tmp);
    }
  }

  /** The place of the element at `run` among the sorted ones before it. The scan stops at the least element. */
  method FindPlace<B(!new)>(m: array2<B>, cmp: Compare<B>, run: nat) returns (tmp: nat)
    requires 1 <= run < m.Length0 && TotalPreorder(cmp) && Least(cmp, Rows(m))
    ensures 0 < tmp <= run && Le(cmp, Rows(m)[tmp - 1], Rows(m)[run])
    ensures forall k :: tmp <= k < run ==> Le(cmp, Rows(m)[run], Rows(m)[k])
  {
    ghost var s := Rows(m);
    assert Le(cmp, s[0], s[run]);
    tmp := run - 1;
    while cmp(Row(m, run), Row(m, tmp)) < 0
      invariant 0 <= tmp < run && forall k :: tmp < k < run ==> Le(cmp, s[run], s[k])
      decreases tmp
    {
      Total(cmp, s[run], s[tmp]);
      tmp := tmp - 1;
    }
    tmp := tmp + 1;
  }

  /** Puts the element at `run` into its place. */
  method InsertElement<B(!new)>(m: array2<B>, cmp: Compare<B>, run: nat)
    requires 1 <= run < m.Length0 && TotalPreorder(cmp) && Least(cmp, Rows(m)) && Sorted(cmp, Rows(m)[..run])
    modifies m
    ensures Least(cmp, Rows(m)) && Sorted(cmp, Rows(m)[..run + 1]) && multiset(Rows(m)) == multiset(old(Rows(m)))
  {
    var tmp := FindPlace(m, cmp, run);
    ghost var s := Rows(m);
    RotatedSorted(cmp, s, tmp, run);
    RotatedLeast(cmp, s, tmp, run);
    RotatedPermutes(s, tmp, run);
    if tmp != run {
      RotateRows(m, tmp, run);
    } else {
      assert Rotated(s, tmp, run) == s;
    }
  }

  method QuicksortMod<B(!new)>(m: array2<B>, cmp: Compare<B>)
    requires TotalPreorder(cmp) && m.Length0 < Pow2(STACK_SIZE)
    modifies m
    ensures Sorted(cmp, Rows(m)) && multiset(Rows(m)) == multiset(old(Rows(m)))
  {
    if m.Length0 == 0 {
      return;
    }
    if m.Length0 > MAX_THRESH {
      SortSegments(m, cmp);
    }
    PlaceSentinel(m, cmp);
    var run := 1;
    if run < m.Length0 {
      run := run + 1;
    }
    FirstSorted(cmp, Rows(m), run);
    while run < m.Length0
      invariant 1 <= run <= m.Length0 && Least(cmp, Rows(m)) && Sorted(cmp, Rows(m)[..run])
      invariant multiset(Rows(m)) == multiset(old(Rows(m)))
    {
      InsertElement(m, cmp, run);
      run := run + 1;
    }
    AllSorted(cmp, Rows(m), run);
  }
}
