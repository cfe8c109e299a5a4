/** What src/qsort_mod.c relies on: splits, segments, the bound on its stack, and its insertion sort, on sequences. */
module SortFacts {
  import opened Powers
  import opened Seals

  const MAX_THRESH: nat := 4
  const STACK_SIZE: nat := 64

  predicate Le<T(!new)>(cmp: (T, T) -> int, x: T, y: T) { cmp(y, x) >= 0 }

  ghost predicate IsPreorder<T(!new)>(cmp: (T, T) -> int) {
    && (forall x, y :: Le(cmp, x, y) || Le(cmp, y, x))
    && forall x, y, z {:trigger Le(cmp, x, y), Le(cmp, y, z)} :: Le(cmp, x, y) && Le(cmp, y, z) ==> Le(cmp, x, z)
  }

  /** The comparison is a total preorder, sealed. */
  ghost predicate TotalPreorder<T(!new)>(cmp: (T, T) -> int) {
    forall k {:trigger Key(k)} :: Key(k) ==> IsPreorder(cmp)
  }

  lemma OpenOrder<T(!new)>(cmp: (T, T) -> int)
    ensures TotalPreorder(cmp) <==> IsPreorder(cmp)
  {
    assert Key(0);
  }

  lemma Total<T(!new)>(cmp: (T, T) -> int, x: T, y: T)
    requires TotalPreorder(cmp)
    ensures Le(cmp, x, y) || Le(cmp, y, x)
  {
    OpenOrder(cmp);
  }

  /** If `r` is least up to `run`, so is the lesser of `r` and the element at `run`. */
  lemma LeastNext<T(!new)>(cmp: (T, T) -> int, s: seq<T>, tmp: nat, run: nat)
    requires TotalPreorder(cmp) && tmp < run < |s| && forall k :: 0 <= k < run ==> Le(cmp, s[tmp], s[k])
    ensures var r := if cmp(s[run], s[tmp]) < 0 then run else tmp; forall k :: 0 <= k <= run ==> Le(cmp, s[r], s[k])
  {
    OpenOrder(cmp);
    Total(cmp, s[run], s[tmp]);
  }

  ghost predicate Sorted<T(!new)>(cmp: (T, T) -> int, s: seq<T>) {
    forall i, j :: 0 <= i < j < |s| ==> Le(cmp, s[i], s[j])
  }

  /** `t` is `s` with the elements from `lo` to `hi` permuted. */
  ghost predicate PermutedWithin<T>(s: seq<T>, t: seq<T>, lo: int, hi: int) {
    && |s| == |t| && multiset(s) == multiset(t)
    && forall k :: 0 <= k < |s| && !(lo <= k <= hi) ==> t[k] == s[k]
  }

  function Swapped<T>(s: seq<T>, i: nat, j: nat): seq<T>
    requires i < |s| && j < |s|
  {
    s[i := s[j]][j := s[i]]
  }

  lemma SwapWithin<T>(s: seq<T>, t: seq<T>, i: nat, j: nat, lo: nat, hi: nat)
    requires PermutedWithin(s, t, lo, hi) && lo <= i <= hi && lo <= j <= hi && i < |t| && j < |t|
    ensures PermutedWithin(s, Swapped(t, i, j), lo, hi)
  {
  }

  /** `right` and `left` split the segment around `v`; between them at most one element, equal to `v`. */
  ghost predicate Split<T(!new)>(cmp: (T, T) -> int, s: seq<T>, lo: nat, hi: nat, v: T, right: int, left: int) {
    && lo <= right < left <= hi < |s| && left <= right + 2
    && (forall k :: lo <= k < left ==> Le(cmp, s[k], v))
    && forall k :: right < k <= hi ==> Le(cmp, v, s[k])
  }

  /** The scans never leave a gap between them. */
  lemma ScansMeet<T(!new)>(cmp: (T, T) -> int, s: seq<T>, lo: nat, hi: nat, v: T, l0: nat, r0: nat, right: nat,
      left: nat)
    requires TotalPreorder(cmp) && lo < l0 <= r0 < hi < |s| && lo <= right <= r0 && l0 <= left <= hi
    requires forall k :: lo <= k < l0 ==> Le(cmp, s[k], v)
    requires forall k :: r0 < k <= hi ==> Le(cmp, v, s[k])
    requires forall k :: l0 <= k < left ==> cmp(s[k], v) < 0
    requires forall k :: right < k <= r0 ==> cmp(v, s[k]) < 0
    ensures left <= right + 1
  {
    assert Le(cmp, s[l0 - 1], v);
    Total(cmp, s[right + 1], v);
  }

  /** The walls stand at `left` and `right`: before `left` nothing is above the pivot, after `right` nothing below
      it. */
  ghost predicate Collapsing<T(!new)>(cmp: (T, T) -> int, s: seq<T>, lo: nat, hi: nat, mid: nat, left: nat,
      right: nat)
  {
    && TotalPreorder(cmp) && lo < left <= right + 1 && right < hi < |s| && lo < mid < hi
    && (forall k :: lo <= k < left ==> Le(cmp, s[k], s[mid]))
    && forall k :: right < k <= hi ==> Le(cmp, s[mid], s[k])
  }

  lemma CollapseStart<T(!new)>(cmp: (T, T) -> int, s: seq<T>, lo: nat, hi: nat, mid: nat)
    requires TotalPreorder(cmp) && lo < mid < hi < |s| && Le(cmp, s[lo], s[mid]) && Le(cmp, s[mid], s[hi])
    ensures Collapsing(cmp, s, lo, hi, mid, lo + 1, hi - 1)
  {
  }

  /** What the scans passed is on the right side of the pivot. */
  lemma ScannedLe<T(!new)>(cmp: (T, T) -> int, s: seq<T>, lo: nat, hi: nat, mid: nat, l0: nat, r0: nat, right: nat,
      left: nat)
    requires Collapsing(cmp, s, lo, hi, mid, l0, r0) && left <= hi && lo <= right
    requires forall k :: l0 <= k < left ==> cmp(s[k], s[mid]) < 0
    requires forall k :: right < k <= r0 ==> cmp(s[mid], s[k]) < 0
    ensures forall k :: lo <= k < left ==> Le(cmp, s[k], s[mid])
    ensures forall k :: right < k <= hi ==> Le(cmp, s[mid], s[k])
  {
    forall k | l0 <= k < left ensures Le(cmp, s[k], s[mid]) {
      Total(cmp, s[k], s[mid]);
    }
    forall k | right < k <= r0 ensures Le(cmp, s[mid], s[k]) {
      Total(cmp, s[mid], s[k]);
    }
  }

  /** The exchange moves the walls by one; the pivot may move with it. */
  lemma SwapCollapsing<T(!new)>(cmp: (T, T) -> int, s: seq<T>, lo: nat, hi: nat, mid: nat, left: nat, right: nat)
    requires TotalPreorder(cmp) && lo < mid < hi < |s| && lo < left < right < hi
    requires Le(cmp, s[mid], s[left]) && Le(cmp, s[right], s[mid])
    requires forall k :: lo <= k < left ==> Le(cmp, s[k], s[mid])
    requires forall k :: right < k <= hi ==> Le(cmp, s[mid], s[k])
    ensures var t, mid' := Swapped(s, left, right), if mid == left then right else if mid == right then left else mid;
      t[mid'] == s[mid] && Collapsing(cmp, t, lo, hi, mid', left + 1, right - 1)
  {
  }

  // --- Segments ---

  datatype StackNode = Null | Node(lo: nat, hi: nat)

  /** Everything before `p` comes before everything from `p` on. */
  ghost predicate Cut<T(!new)>(cmp: (T, T) -> int, s: seq<T>, p: nat) {
    forall i, j :: 0 <= i < p <= j < |s| ==> Le(cmp, s[i], s[j])
  }

  /** Some cut lies between `i` and the fifth element after it. */
  ghost predicate CutNear<T(!new)>(cmp: (T, T) -> int, s: seq<T>, i: nat) {
    exists p :: i < p <= i + MAX_THRESH + 1 && Cut(cmp, s, p)
  }

  predicate Holds(x: StackNode, i: nat) { x.Node? && x.lo <= i && i + MAX_THRESH + 1 <= x.hi }

  ghost predicate Pending(segs: seq<StackNode>, i: nat) {
    exists k :: 0 <= k < |segs| && Holds(segs[k], i)
  }

  /** Elements more than four apart are in order, except inside the segments still to be sorted. */
  ghost predicate Covered<T(!new)>(cmp: (T, T) -> int, s: seq<T>, segs: seq<StackNode>) {
    forall i: nat :: i + MAX_THRESH + 1 < |s| ==> CutNear(cmp, s, i) || Pending(segs, i)
  }

  ghost predicate Closed<T(!new)>(cmp: (T, T) -> int, s: seq<T>, x: StackNode) {
    x.Node? && x.lo <= x.hi < |s| && Cut(cmp, s, x.lo) && Cut(cmp, s, x.hi + 1)
  }

  predicate Off(x: StackNode, y: StackNode) { x.Node? && y.Node? && (x.hi < y.lo || y.hi < x.lo) }

  ghost predicate Segments<T(!new)>(cmp: (T, T) -> int, s: seq<T>, segs: seq<StackNode>) {
    && (forall k :: 0 <= k < |segs| ==> Closed(cmp, s, segs[k]))
    && (forall k, l :: 0 <= k < l < |segs| ==> Off(segs[k], segs[l]))
    && Covered(cmp, s, segs)
  }

  lemma ThreeParts<T>(a: seq<T>, x: seq<T>, b: seq<T>)
    ensures multiset(a + x + b) == (multiset(a) + multiset(b)) + multiset(x)
  {
  }

  lemma SlicePermuted<T>(s: seq<T>, t: seq<T>, lo: nat, hi: nat)
    requires PermutedWithin(s, t, lo, hi) && lo <= hi < |s|
    ensures multiset(s[lo..hi + 1]) == multiset(t[lo..hi + 1])
  {
    var a, b := s[..lo], s[hi + 1..];
    assert t[..lo] == a && t[hi + 1..] == b;
    assert s == a + s[lo..hi + 1] + b && t == a + t[lo..hi + 1] + b;
    ThreeParts(a, s[lo..hi + 1], b);
    ThreeParts(a, t[lo..hi + 1], b);
    Cancel(multiset(a) + multiset(b), multiset(s[lo..hi + 1]), multiset(t[lo..hi + 1]));
  }

  lemma Cancel<T>(a: multiset<T>, x: multiset<T>, y: multiset<T>)
    requires a + x == a + y
    ensures x == y
  {
    assert x == (a + x) - a && y == (a + y) - a;
  }

  /** An element of the permuted part comes from there. */
  lemma Origin<T>(s: seq<T>, t: seq<T>, lo: nat, hi: nat, i: nat) returns (j: nat)
    requires PermutedWithin(s, t, lo, hi) && lo <= hi < |s| && i < |s|
    ensures j < |s| && t[i] == s[j] && if lo <= i <= hi then lo <= j <= hi else j == i
  {
    if lo <= i <= hi {
      SlicePermuted(s, t, lo, hi);
      assert t[lo..hi + 1][i - lo] in multiset(t[lo..hi + 1]);
      var k :| 0 <= k < hi + 1 - lo && s[lo..hi + 1][k] == t[i];
      j := lo + k;
    } else {
      j := i;
    }
  }

  lemma CutKept<T(!new)>(cmp: (T, T) -> int, s: seq<T>, t: seq<T>, lo: nat, hi: nat, p: nat)
    requires PermutedWithin(s, t, lo, hi) && lo <= hi < |s| && Cut(cmp, s, p) && (p <= lo || hi < p)
    ensures Cut(cmp, t, p)
  {
    forall i, j | 0 <= i < p <= j < |t| ensures Le(cmp, t[i], t[j]) {
      var i' := Origin(s, t, lo, hi, i);
      var j' := Origin(s, t, lo, hi, j);
      assert Le(cmp, s[i'], s[j']);
    }
  }

  /** A split between two cuts cuts on both sides of the gap. */
  lemma SplitCuts<T(!new)>(cmp: (T, T) -> int, t: seq<T>, lo: nat, hi: nat, v: T, right: nat, left: nat)
    requires TotalPreorder(cmp) && Split(cmp, t, lo, hi, v, right, left) && Cut(cmp, t, lo) && Cut(cmp, t, hi + 1)
    ensures Cut(cmp, t, right + 1) && Cut(cmp, t, left)
  {
    OpenOrder(cmp);
    forall p | p == right + 1 || p == left ensures Cut(cmp, t, p) {
      forall i, j | 0 <= i < p <= j < |t| ensures Le(cmp, t[i], t[j]) {
        if lo <= i && j <= hi {
          assert Le(cmp, t[i], v) && Le(cmp, v, t[j]);
        }
      }
    }
  }

  /** What is left of a split segment: its parts of more than five elements. */
  ghost predicate Parts(parts: seq<StackNode>, lo: nat, hi: nat, right: nat, left: nat) {
    && (forall k :: 0 <= k < |parts| ==>
      (parts[k] == Node(lo, right) || parts[k] == Node(left, hi)) && Size(parts[k]) > MAX_THRESH)
    && (forall k, l :: 0 <= k < l < |parts| ==> parts[k] != parts[l])
    && (right - lo > MAX_THRESH ==> Node(lo, right) in parts) && (hi - left > MAX_THRESH ==> Node(left, hi) in parts)
  }

  lemma ClosedNext<T(!new)>(cmp: (T, T) -> int, s: seq<T>, t: seq<T>, x: StackNode, lo: nat, hi: nat)
    requires Closed(cmp, s, x) && Off(x, Node(lo, hi)) && PermutedWithin(s, t, lo, hi) && lo <= hi < |s|
    ensures Closed(cmp, t, x)
  {
    CutKept(cmp, s, t, lo, hi, x.lo);
    CutKept(cmp, s, t, lo, hi, x.hi + 1);
  }

  lemma CoveredAt<T(!new)>(cmp: (T, T) -> int, s: seq<T>, t: seq<T>, rest: seq<StackNode>, lo: nat, hi: nat,
                           right: nat, left: nat, parts: seq<StackNode>, i: nat)
    requires CutNear(cmp, s, i) || Pending(rest + [Node(lo, hi)], i)
    requires PermutedWithin(s, t, lo, hi) && Cut(cmp, s, lo) && Cut(cmp, s, hi + 1)
    requires lo <= right < left <= hi < |s| && left <= right + 2 && Cut(cmp, t, right + 1) && Cut(cmp, t, left)
      && Parts(parts, lo, hi, right, left)
    ensures CutNear(cmp, t, i) || Pending(rest + parts, i)
  {
    CutKept(cmp, s, t, lo, hi, lo);
    CutKept(cmp, s, t, lo, hi, hi + 1);
    if lo <= i && i + MAX_THRESH + 1 <= hi {
      if i + MAX_THRESH + 1 <= right {
        PendingIn(rest, parts, Node(lo, right), i);
      } else if left <= i {
        PendingIn(rest, parts, Node(left, hi), i);
      } else {
        assert i < left <= i + MAX_THRESH + 1 || i < right + 1 <= i + MAX_THRESH + 1;
      }
    } else if CutNear(cmp, s, i) {
      var p :| i < p <= i + MAX_THRESH + 1 && Cut(cmp, s, p);
      if p <= lo || hi < p {
        CutKept(cmp, s, t, lo, hi, p);
      }
    } else {
      var k :| 0 <= k < |rest + [Node(lo, hi)]| && Holds((rest + [Node(lo, hi)])[k], i);
      assert (rest + parts)[k] == rest[k];
    }
  }

  lemma PendingIn(rest: seq<StackNode>, parts: seq<StackNode>, x: StackNode, i: nat)
    requires x in parts && Holds(x, i)
    ensures Pending(rest + parts, i)
  {
    var k :| 0 <= k < |parts| && parts[k] == x;
    assert (rest + parts)[|rest| + k] == x;
  }

  /** Sorting goes on with the parts in place of the segment. */
  lemma SegmentsNext<T(!new)>(cmp: (T, T) -> int, s: seq<T>, t: seq<T>, rest: seq<StackNode>, lo: nat, hi: nat,
                              v: T, right: nat, left: nat, parts: seq<StackNode>)
    requires TotalPreorder(cmp) && Segments(cmp, s, rest + [Node(lo, hi)]) && PermutedWithin(s, t, lo, hi)
    requires Split(cmp, t, lo, hi, v, right, left) && Parts(parts, lo, hi, right, left)
    ensures Segments(cmp, t, rest + parts)
  {
    var segs, next := rest + [Node(lo, hi)], rest + parts;
    assert segs[|rest|] == Node(lo, hi) && Closed(cmp, s, segs[|rest|]);
    CutKept(cmp, s, t, lo, hi, lo);
    CutKept(cmp, s, t, lo, hi, hi + 1);
    SplitCuts(cmp, t, lo, hi, v, right, left);
    forall k | 0 <= k < |next| ensures Closed(cmp, t, next[k]) {
      if k < |rest| {
        assert segs[k] == rest[k] && Off(segs[k], segs[|rest|]);
        ClosedNext(cmp, s, t, rest[k], lo, hi);
      }
    }
    NextOff(rest, lo, hi, right, left, parts);
    forall i: nat | i + MAX_THRESH + 1 < |t| ensures CutNear(cmp, t, i) || Pending(next, i) {
      CoveredAt(cmp, s, t, rest, lo, hi, right, left, parts, i);
    }
  }

  lemma NextOff(rest: seq<StackNode>, lo: nat, hi: nat, right: nat, left: nat, parts: seq<StackNode>)
    requires var segs := rest + [Node(lo, hi)]; forall k, l :: 0 <= k < l < |segs| ==> Off(segs[k], segs[l])
    requires lo <= right < left <= hi && Parts(parts, lo, hi, right, left)
    ensures var next := rest + parts; forall k, l :: 0 <= k < l < |next| ==> Off(next[k], next[l])
  {
    var segs, next := rest + [Node(lo, hi)], rest + parts;
    forall k, l | 0 <= k < l < |next| ensures Off(next[k], next[l]) {
      if k < |rest| {
        assert segs[k] == rest[k] && segs[|rest|] == Node(lo, hi) && Off(segs[k], segs[|rest|]);
        if l < |rest| {
          assert segs[l] == rest[l];
        }
      }
    }
  }

  // --- The stack ---

  function Size(x: StackNode): int { if x.Node? then x.hi - x.lo + 1 else 0 }

  /** The segment at depth `k` is at most a `2^k`th of the array. */
  ghost predicate Halved(segs: seq<StackNode>, n: nat) {
    forall k :: 0 <= k < |segs| ==> Size(segs[k]) * Pow2(k) <= n
  }

  /** A bound on the rounds still to come. */
  ghost function Work(segs: seq<StackNode>): nat {
    if segs == [] then 0 else Work(segs[..|segs| - 1]) + Weight(segs[|segs| - 1])
  }

  function Weight(x: StackNode): nat { if x.Node? && x.lo <= x.hi then 2 * (x.hi - x.lo) + 1 else 0 }

  lemma WorkPush(segs: seq<StackNode>, x: StackNode)
    ensures Work(segs + [x]) == Work(segs) + Weight(x)
  {
    assert (segs + [x])[..|segs|] == segs;
  }

  /** The segments on the stack and the current one, the bottom entry being `Null`. */
  ghost function Live(stack: seq<StackNode>, top: nat, cur: StackNode): seq<StackNode>
    requires top <= |stack|
  {
    if top == 0 then [] else stack[1..top] + [cur]
  }

  /** The stack never fills up. */
  lemma Room(rest: seq<StackNode>, x: StackNode, n: nat)
    requires Halved(rest + [x], n) && Size(x) >= 2 && n < Pow2(STACK_SIZE)
    ensures |rest| + 1 < STACK_SIZE
  {
    assert (rest + [x])[|rest|] == x;
    if |rest| >= STACK_SIZE - 1 {
      Pow2Grows(STACK_SIZE - 1, |rest|);
      Times(2, Size(x), Pow2(STACK_SIZE - 1), Pow2(|rest|));
    }
  }

  lemma Times(a: nat, b: nat, c: nat, d: nat)
    requires a <= b && c <= d
    ensures a * c <= b * d
  {
  }

  lemma Share(a: nat, b: nat, p: nat, n: nat)
    requires a <= b && b * p <= n
    ensures a * p <= n
  {
    Times(a, b, p, p);
  }

  lemma Halve(a: nat, b: nat, p: nat, n: nat)
    requires 2 * a <= b && b * p <= n
    ensures a * (2 * p) <= n
  {
    Times(2 * a, b, p, p);
  }

  /** The smaller part comes last. */
  predicate SmallerLast(parts: seq<StackNode>) {
    |parts| <= 2 && (|parts| == 2 ==> Size(parts[1]) <= Size(parts[0]))
  }

  lemma PartsHalve(rest: seq<StackNode>, lo: nat, hi: nat, right: nat, left: nat, parts: seq<StackNode>, n: nat)
    requires Halved(rest + [Node(lo, hi)], n) && lo <= right < left <= hi
    requires Parts(parts, lo, hi, right, left) && SmallerLast(parts)
    ensures Halved(rest + parts, n)
  {
    var next := rest + parts;
    assert (rest + [Node(lo, hi)])[|rest|] == Node(lo, hi);
    forall k | 0 <= k < |next| ensures Size(next[k]) * Pow2(k) <= n {
      if k < |rest| {
        assert (rest + [Node(lo, hi)])[k] == next[k];
      } else if k == |rest| {
        Share(Size(next[k]), Size(Node(lo, hi)), Pow2(k), n);
      } else {
        assert k == |rest| + 1;
        Halve(Size(next[k]), Size(Node(lo, hi)), Pow2(|rest|), n);
      }
    }
  }

  lemma {:induction false} WorkAppend(a: seq<StackNode>, b: seq<StackNode>)
    ensures Work(a + b) == Work(a) + Work(b)
  {
    if b == [] {
      assert a + b == a;
    } else {
      var n := |b| - 1;
      assert a + b == (a + b[..n]) + [b[n]] && b == b[..n] + [b[n]];
      WorkAppend(a, b[..n]);
      WorkPush(a + b[..n], b[n]);
      WorkPush(b[..n], b[n]);
    }
  }

  /** The parts of a segment are less work than the segment. */
  lemma LessWork(parts: seq<StackNode>, lo: nat, hi: nat, right: nat, left: nat)
    requires lo <= right < left <= hi && Parts(parts, lo, hi, right, left) && |parts| <= 2
    ensures Work(parts) < Weight(Node(lo, hi))
  {
    if |parts| == 2 {
      assert parts[0] != parts[1];
      WorkPush([parts[0]], parts[1]);
      assert parts == [parts[0]] + [parts[1]];
    }
  }

  lemma PartsWork(rest: seq<StackNode>, lo: nat, hi: nat, right: nat, left: nat, parts: seq<StackNode>)
    requires lo <= right < left <= hi && Parts(parts, lo, hi, right, left) && |parts| <= 2
    ensures Work(rest + parts) < Work(rest + [Node(lo, hi)])
  {
    WorkPush(rest, Node(lo, hi));
    WorkAppend(rest, parts);
    LessWork(parts, lo, hi, right, left);
  }

  /** Elements more than four apart are in order. */
  ghost predicate NearlySorted<T(!new)>(cmp: (T, T) -> int, s: seq<T>) {
    forall i, j :: 0 <= i && i + MAX_THRESH + 1 <= j < |s| ==> Le(cmp, s[i], s[j])
  }

  lemma CoveredNearly<T(!new)>(cmp: (T, T) -> int, s: seq<T>)
    requires Covered(cmp, s, [])
    ensures NearlySorted(cmp, s)
  {
    forall i, j | 0 <= i && i + MAX_THRESH + 1 <= j < |s| ensures Le(cmp, s[i], s[j]) {
      assert CutNear(cmp, s, i) || Pending([], i);
      var p :| i < p <= i + MAX_THRESH + 1 && Cut(cmp, s, p);
    }
  }

  lemma SegmentsStart<T(!new)>(cmp: (T, T) -> int, s: seq<T>)
    requires |s| > MAX_THRESH
    ensures Segments(cmp, s, [Node(0, |s| - 1)])
  {
    var segs := [Node(0, |s| - 1)];
    forall i: nat {:trigger Pending(segs, i)} | i + MAX_THRESH + 1 < |s| ensures Pending(segs, i) {
      assert Holds(segs[0], i);
    }
  }

  lemma PermutedTwice<T>(s: seq<T>, t: seq<T>, u: seq<T>, lo: int, hi: int)
    requires PermutedWithin(s, t, lo, hi) && PermutedWithin(t, u, lo, hi)
    ensures PermutedWithin(s, u, lo, hi)
  {
  }

  ghost predicate Large(segs: seq<StackNode>) { forall k :: 0 <= k < |segs| ==> Size(segs[k]) > MAX_THRESH }

  /** The live segments, `top` and `cur` of the quicksort loop. */
  ghost predicate Sorting<T(!new)>(cmp: (T, T) -> int, s: seq<T>, segs: seq<StackNode>, stack: seq<StackNode>,
      top: nat, cur: StackNode)
  {
    && |stack| == STACK_SIZE && top <= STACK_SIZE && stack[0] == Null && segs == Live(stack, top, cur)
    && Segments(cmp, s, segs) && Halved(segs, |s|) && Large(segs)
  }

  lemma Current<T(!new)>(cmp: (T, T) -> int, s: seq<T>, segs: seq<StackNode>, stack: seq<StackNode>, top: nat,
      cur: StackNode)
    requires Sorting(cmp, s, segs, stack, top, cur) && top > 0 && |s| < Pow2(STACK_SIZE)
    ensures cur.Node? && cur.lo + MAX_THRESH <= cur.hi < |s| && segs == stack[1..top] + [cur] && top < STACK_SIZE
  {
    var rest := stack[1..top];
    assert segs[|rest|] == cur && Closed(cmp, s, segs[|rest|]);
    Room(rest, cur, |s|);
  }

  lemma RoundKeeps<T(!new)>(cmp: (T, T) -> int, s: seq<T>, t: seq<T>, rest: seq<StackNode>, lo: nat, hi: nat,
                            v: T, right: nat, left: nat, parts: seq<StackNode>)
    requires TotalPreorder(cmp) && Segments(cmp, s, rest + [Node(lo, hi)]) && PermutedWithin(s, t, lo, hi)
    requires Halved(rest + [Node(lo, hi)], |s|) && Large(rest + [Node(lo, hi)])
    requires Split(cmp, t, lo, hi, v, right, left) && Parts(parts, lo, hi, right, left) && SmallerLast(parts)
    ensures Segments(cmp, t, rest + parts) && Halved(rest + parts, |t|) && Large(rest + parts)
    ensures Work(rest + parts) < Work(rest + [Node(lo, hi)])
  {
    SegmentsNext(cmp, s, t, rest, lo, hi, v, right, left, parts);
    PartsHalve(rest, lo, hi, right, left, parts, |s|);
    PartsWork(rest, lo, hi, right, left, parts);
    LargeNext(rest, lo, hi, parts);
  }

  lemma LargeNext(rest: seq<StackNode>, lo: nat, hi: nat, parts: seq<StackNode>)
    requires Large(rest + [Node(lo, hi)]) && Large(parts)
    ensures Large(rest + parts)
  {
    forall k | 0 <= k < |rest| ensures Size(rest[k]) > MAX_THRESH {
      assert rest[k] == (rest + [Node(lo, hi)])[k];
    }
  }

  // --- Insertion sort ---

  /** `s[run]` moved down to `tmp`, the elements from there on moved up by one. */
  ghost function Rotated<T>(s: seq<T>, tmp: nat, run: nat): (r: seq<T>)
    requires tmp <= run < |s|
    ensures |r| == |s|
  {
    s[..tmp] + [s[run]] + s[tmp..run] + s[run + 1..]
  }

  lemma RotatedPermutes<T>(s: seq<T>, tmp: nat, run: nat)
    requires tmp <= run < |s|
    ensures multiset(Rotated(s, tmp, run)) == multiset(s)
  {
    assert s == s[..tmp] + s[tmp..run] + [s[run]] + s[run + 1..];
  }

  ghost predicate Least<T(!new)>(cmp: (T, T) -> int, s: seq<T>) {
    forall k :: 0 <= k < |s| ==> Le(cmp, s[0], s[k])
  }

  lemma LeastOfAll<T(!new)>(cmp: (T, T) -> int, s: seq<T>, tmp: nat, thresh: nat)
    requires TotalPreorder(cmp) && NearlySorted(cmp, s) && tmp <= thresh < |s|
      && (thresh == MAX_THRESH || thresh == |s| - 1)
    requires forall k :: 0 <= k <= thresh ==> Le(cmp, s[tmp], s[k])
    ensures forall k :: 0 <= k < |s| ==> Le(cmp, s[tmp], s[k])
  {
    OpenOrder(cmp);
    forall k | thresh < k < |s| ensures Le(cmp, s[tmp], s[k]) {
      assert Le(cmp, s[tmp], s[0]) && Le(cmp, s[0], s[k]);
    }
  }

  lemma LeastSwapped<T(!new)>(cmp: (T, T) -> int, s: seq<T>, t: seq<T>, tmp: nat)
    requires |s| == |t| && tmp < |s| && t[0] == s[tmp] && t[tmp] == s[0]
    requires forall k :: 0 <= k < |s| && k != 0 && k != tmp ==> t[k] == s[k]
    requires forall k :: 0 <= k < |s| ==> Le(cmp, s[tmp], s[k])
    ensures Least(cmp, t)
  {
    forall k | 0 <= k < |t| ensures Le(cmp, t[0], t[k]) {
      assert t[k] == s[if k == 0 then tmp else if k == tmp then 0 else k];
    }
  }

  lemma RotatedSorted<T(!new)>(cmp: (T, T) -> int, s: seq<T>, tmp: nat, run: nat)
    requires TotalPreorder(cmp) && 0 < tmp <= run < |s| && Sorted(cmp, s[..run]) && Le(cmp, s[tmp - 1], s[run])
    requires forall k :: tmp <= k < run ==> Le(cmp, s[run], s[k])
    ensures Sorted(cmp, Rotated(s, tmp, run)[..run + 1])
  {
    OpenOrder(cmp);
    var t := Rotated(s, tmp, run)[..run + 1];
    forall i, j | 0 <= i < j < |t| ensures Le(cmp, t[i], t[j]) {
      assert forall k :: 0 <= k < run ==> s[..run][k] == s[k];
      assert t[i] == if i < tmp then s[i] else if i == tmp then s[run] else s[i - 1];
      assert t[j] == if j < tmp then s[j] else if j == tmp then s[run] else s[j - 1];
      assert i < tmp - 1 ==> Le(cmp, s[i], s[tmp - 1]);
    }
  }

  /** Up to two elements are in order if the first is the least. */
  lemma FirstSorted<T(!new)>(cmp: (T, T) -> int, s: seq<T>, run: nat)
    requires 1 <= run <= |s| && run <= 2 && Least(cmp, s)
    ensures Sorted(cmp, s[..run])
  {
    if run == 2 {
      assert Le(cmp, s[0], s[1]);
    }
  }

  lemma AllSorted<T(!new)>(cmp: (T, T) -> int, s: seq<T>, run: nat)
    requires run == |s| && Sorted(cmp, s[..run])
    ensures Sorted(cmp, s)
  {
    assert s[..run] == s;
  }

  lemma RotatedLeast<T(!new)>(cmp: (T, T) -> int, s: seq<T>, tmp: nat, run: nat)
    requires Least(cmp, s) && 0 < tmp <= run < |s|
    ensures Least(cmp, Rotated(s, tmp, run))
  {
    var t := Rotated(s, tmp, run);
    forall k | 0 <= k < |t| ensures Le(cmp, t[0], t[k]) {
      assert t[k] == s[if k < tmp || run < k then k else if k == tmp then run else k - 1];
    }
  }

  /** Where the element at `r` comes from when `run` is rotated down to `tmp`. */
  function Source(r: int, tmp: int, run: int): int {
    if r < tmp || run < r then r else if r == tmp then run else r - 1
  }

  lemma RotatedAt<T>(s: seq<T>, tmp: nat, run: nat, r: nat)
    requires tmp <= run < |s| && r < |s|
    ensures Rotated(s, tmp, run)[r] == s[Source(r, tmp, run)]
  {
  }
}
