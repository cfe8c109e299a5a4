/** The three-way quicksort of src/NativeCodeBlocktmp.c: equal keys gather at both ends, and two exchange
    loops then bring them to the middle. */
module ThreeWaySort {
  import opened Seals
  import opened SortFacts

  /** Keys between `from` and `to` stand to `pvt` as `rel` says: below, at, or above it. */
  ghost predicate Zone<T>(s: seq<T>, key: T -> int, pvt: int, from: int, to: int, rel: int) {
    0 <= from && to <= |s| && forall k :: from <= k < to ==>
      (if rel < 0 then key(s[k]) < pvt else if rel > 0 then key(s[k]) > pvt else key(s[k]) == pvt)
  }

  /** Equal, less, not yet seen, greater, equal. */
  ghost predicate Zones<T>(s: seq<T>, key: T -> int, pvt: int, b: nat, n: nat, le: int, l: int, g: int, ge: int) {
    && 0 <= le <= l <= g <= ge <= n && b + n <= |s|
    && Zone(s, key, pvt, b, b + le, 0) && Zone(s, key, pvt, b + le, b + l, -1)
    && Zone(s, key, pvt, b + g, b + ge, 1) && Zone(s, key, pvt, b + ge, b + n, 0)
  }

  /** The zones, sealed. */
  ghost predicate Zoned<T>(t: seq<T>, key: T -> int, pvt: int, b: nat, n: nat, le: int, l: int, g: int, ge: int) {
    && 0 <= le <= l <= g <= ge <= n && b + n <= |t|
    && forall k {:trigger Key(k)} :: Key(k) ==> Zones(t, key, pvt, b, n, le, l, g, ge)
  }

  lemma OpenZones<T>(t: seq<T>, key: T -> int, pvt: int, b: nat, n: nat, le: int, l: int, g: int, ge: int)
    ensures Zoned(t, key, pvt, b, n, le, l, g, ge) <==> Zones(t, key, pvt, b, n, le, l, g, ge)
  {
    assert Key(0);
  }

  /** `t` is `s` with `n` elements from `b` on permuted, sealed. */
  ghost predicate Shuffled<T>(s: seq<T>, t: seq<T>, b: nat, n: nat) {
    forall k {:trigger Key(k)} :: Key(k) ==> PermutedWithin(s, t, b, b + n - 1)
  }

  lemma OpenShuffled<T>(s: seq<T>, t: seq<T>, b: nat, n: nat)
    ensures Shuffled(s, t, b, n) <==> PermutedWithin(s, t, b, b + n - 1)
  {
    assert Key(0);
  }

  lemma ShuffledNext<T>(s: seq<T>, t: seq<T>, i: nat, j: nat, b: nat, n: nat)
    requires Shuffled(s, t, b, n) && b <= i < b + n && b <= j < b + n && i < |t| && j < |t|
    ensures Shuffled(s, Swapped(t, i, j), b, n)
  {
    OpenShuffled(s, t, b, n);
    SwapWithin(s, t, i, j, b, b + n - 1);
    OpenShuffled(s, Swapped(t, i, j), b, n);
  }

  /** An equal key at `l` goes to the equal ones at the front. */
  lemma EqualUp<T>(t: seq<T>, key: T -> int, pvt: int, b: nat, n: nat, le: int, l: int, g: int, ge: int)
    requires Zoned(t, key, pvt, b, n, le, l, g, ge) && l < g && key(t[b + l]) == pvt
    ensures Zoned(Swapped(t, b + le, b + l), key, pvt, b, n, le + 1, l + 1, g, ge)
  {
    OpenZones(t, key, pvt, b, n, le, l, g, ge);
    OpenZones(Swapped(t, b + le, b + l), key, pvt, b, n, le + 1, l + 1, g, ge);
  }

  /** A lesser key at `l` stays. */
  lemma LessUp<T>(t: seq<T>, key: T -> int, pvt: int, b: nat, n: nat, le: int, l: int, g: int, ge: int)
    requires Zoned(t, key, pvt, b, n, le, l, g, ge) && l < g && key(t[b + l]) < pvt
    ensures Zoned(t, key, pvt, b, n, le, l + 1, g, ge)
  {
    OpenZones(t, key, pvt, b, n, le, l, g, ge);
    OpenZones(t, key, pvt, b, n, le, l + 1, g, ge);
  }

  /** An equal key at `g` goes to the equal ones at the end. */
  lemma EqualDown<T>(t: seq<T>, key: T -> int, pvt: int, b: nat, n: nat, le: int, l: int, g: int, ge: int)
    requires Zoned(t, key, pvt, b, n, le, l, g + 1, ge) && l < g && key(t[b + g]) == pvt
    ensures Zoned(Swapped(t, b + ge - 1, b + g), key, pvt, b, n, le, l, g, ge - 1)
    ensures Swapped(t, b + ge - 1, b + g)[b + l] == t[b + l]
  {
    OpenZones(t, key, pvt, b, n, le, l, g + 1, ge);
    OpenZones(Swapped(t, b + ge - 1, b + g), key, pvt, b, n, le, l, g, ge - 1);
  }

  /** A greater key at `g` stays. */
  lemma GreaterDown<T>(t: seq<T>, key: T -> int, pvt: int, b: nat, n: nat, le: int, l: int, g: int, ge: int)
    requires Zoned(t, key, pvt, b, n, le, l, g + 1, ge) && l <= g && key(t[b + g]) > pvt
    ensures Zoned(t, key, pvt, b, n, le, l, g, ge)
  {
    OpenZones(t, key, pvt, b, n, le, l, g + 1, ge);
    OpenZones(t, key, pvt, b, n, le, l, g, ge);
  }

  /** A greater key at `l` and a lesser one at `g` change places. */
  lemma Crossed<T>(t: seq<T>, key: T -> int, pvt: int, b: nat, n: nat, le: int, l: int, g: int, ge: int)
    requires Zoned(t, key, pvt, b, n, le, l, g + 1, ge) && l < g && key(t[b + l]) > pvt && key(t[b + g]) < pvt
    ensures Zoned(Swapped(t, b + l, b + g), key, pvt, b, n, le, l + 1, g, ge)
  {
    OpenZones(t, key, pvt, b, n, le, l, g + 1, ge);
    OpenZones(Swapped(t, b + l, b + g), key, pvt, b, n, le, l + 1, g, ge);
  }

  /** Two elements change places. */
  method SwapElement<T>(a: array<T>, i: nat, j: nat, ghost s: seq<T>, ghost b: nat, ghost n: nat)
    requires b <= i < b + n <= a.Length && b <= j < b + n && Shuffled(s, a[..], b, n)
    modifies a
    ensures a[..] == Swapped(old(a[..]), i, j) && Shuffled(s, a[..], b, n)
  {
    ShuffledNext(s, a[..], i, j, b, n);
    a[i], a[j] := a[j], a[i];
    assert a[..] == Swapped(old(a[..]), i, j);
  }

  /** The loop that moves `l` up. */
  method ScanUp<T>(a: array<T>, key: T -> int, pvt: int, b: nat, n: nat, le0: int, l0: int, g: int, ge: int,
      ghost s: seq<T>)
      returns (le: int, l: int)
    requires Zoned(a[..], key, pvt, b, n, le0, l0 + 1, g, ge) && Shuffled(s, a[..], b, n)
    modifies a
    ensures Zoned(a[..], key, pvt, b, n, le, l, g, ge) && Shuffled(s, a[..], b, n) && l > l0
      && (l < g ==> key(a[b + l]) > pvt)
  {
    le, l := le0, l0 + 1;
    while l < g && key(a[b + l]) <= pvt
      invariant l0 < l && Zoned(a[..], key, pvt, b, n, le, l, g, ge) && Shuffled(s, a[..], b, n)
      decreases g - l
    {
      if key(a[b + l]) == pvt {
        EqualUp(a[..], key, pvt, b, n, le, l, g, ge);
        SwapElement(a, b + le, b + l, s, b, n);
        le := le + 1;
      } else {
        LessUp(a[..], key, pvt, b, n, le, l, g, ge);
      }
      l := l + 1;
    }
  }

  /** The key at `g` is not below the pivot. */
  method SeeDown<T>(a: array<T>, key: T -> int, pvt: int, b: nat, n: nat, ghost le: int, ghost l: int, g: int,
      ge0: int, ghost s: seq<T>)
      returns (ge: int)
    requires Zoned(a[..], key, pvt, b, n, le, l, g + 1, ge0) && Shuffled(s, a[..], b, n) && l < g
      && key(a[b + g]) >= pvt
    modifies a
    ensures Zoned(a[..], key, pvt, b, n, le, l, g, ge) && Shuffled(s, a[..], b, n) && a[b + l] == old(a[b + l])
  {
    ge := ge0;
    if key(a[b + g]) == pvt {
      EqualDown(a[..], key, pvt, b, n, le, l, g, ge);
      ge := ge - 1;
      SwapElement(a, b + ge, b + g, s, b, n);
    } else {
      GreaterDown(a[..], key, pvt, b, n, le, l, g, ge);
    }
  }

  /** The loop that moves `g` down. */
  method ScanDown<T>(a: array<T>, key: T -> int, pvt: int, b: nat, n: nat, ghost le: int, l: int, g0: int, ge0: int,
      ghost s: seq<T>)
      returns (g: int, ge: int)
    requires Zoned(a[..], key, pvt, b, n, le, l, g0, ge0) && Shuffled(s, a[..], b, n)
      && (l < g0 ==> key(a[b + l]) > pvt)
    modifies a
    ensures g < g0 && Zoned(a[..], key, pvt, b, n, le, l, g + 1, ge) && Shuffled(s, a[..], b, n)
    ensures g >= l ==> key(a[b + l]) > pvt
    ensures g > l ==> key(a[b + g]) < pvt
  {
    g, ge := g0 - 1, ge0;
    while l < g && key(a[b + g]) >= pvt
      invariant g < g0 && Zoned(a[..], key, pvt, b, n, le, l, g + 1, ge) && Shuffled(s, a[..], b, n)
      invariant l <= g ==> key(a[b + l]) > pvt
      decreases g
    {
      ge := SeeDown(a, key, pvt, b, n, le, l, g, ge, s);
      g := g - 1;
    }
  }

  /** The scans have met: what lies between them has been seen. */
  lemma Met<T>(t: seq<T>, key: T -> int, pvt: int, b: nat, n: nat, le: int, l: int, g: int, ge: int)
    requires Zoned(t, key, pvt, b, n, le, l, g + 1, ge) && g <= l && (g >= l ==> key(t[b + l]) > pvt)
    ensures Zoned(t, key, pvt, b, n, le, l, l, ge)
  {
    if g == l {
      GreaterDown(t, key, pvt, b, n, le, l, g, ge);
    }
  }

  lemma NothingSeen<T>(s: seq<T>, key: T -> int, pvt: int, b: nat, n: nat)
    requires b + n <= |s|
    ensures Zoned(s, key, pvt, b, n, 0, 0, n, n) && Shuffled(s, s, b, n)
  {
    OpenZones(s, key, pvt, b, n, 0, 0, n, n);
    OpenShuffled(s, s, b, n);
  }

  /** The partition loop. */
  method Gather<T>(a: array<T>, key: T -> int, pvt: int, b: nat, n: nat) returns (le: int, l: int, ge: int)
    requires b + n <= a.Length
    modifies a
    ensures Zoned(a[..], key, pvt, b, n, le, l, l, ge) && Shuffled(old(a[..]), a[..], b, n)
  {
    ghost var s := a[..];
    le, l, ge := 0, -1, n;
    var g: int := n;
    NothingSeen(s, key, pvt, b, n);
    while true
      invariant Zoned(a[..], key, pvt, b, n, le, l + 1, g, ge) && Shuffled(s, a[..], b, n)
      decreases g - l
    {
      le, l := ScanUp(a, key, pvt, b, n, le, l, g, ge, s);
      g, ge := ScanDown(a, key, pvt, b, n, le, l, g, ge, s);
      if g <= l {
        Met(a[..], key, pvt, b, n, le, l, g, ge);
        break;
      }
      Crossed(a[..], key, pvt, b, n, le, l, g, ge);
      SwapElement(a, b + l, b + g, s, b, n);
    }
  }

  /** Where the element at `k` comes from when the places from `i0` to `i1` are mirrored about `c`. */
  function Image(k: int, i0: int, i1: int, c: int): int { if i0 <= k < i1 || i0 <= c - k < i1 then c - k else k }

  ghost predicate Mirrored<T>(s: seq<T>, t: seq<T>, i0: int, i1: int, c: int) {
    |s| == |t| && forall k :: 0 <= k < |t| ==> FromImage(s, t, k, i0, i1, c)
  }

  ghost predicate FromImage<T>(s: seq<T>, t: seq<T>, k: nat, i0: int, i1: int, c: int)
    requires k < |t|
  {
    var j := Image(k, i0, i1, c);
    0 <= j < |s| && t[k] == s[j]
  }

  /** Mirrored, sealed. */
  ghost predicate Turned<T>(s: seq<T>, t: seq<T>, i0: int, i1: int, c: int) {
    forall k {:trigger Key(k)} :: Key(k) ==> Mirrored(s, t, i0, i1, c)
  }

  lemma OpenTurned<T>(s: seq<T>, t: seq<T>, i0: int, i1: int, c: int)
    ensures Turned(s, t, i0, i1, c) <==> Mirrored(s, t, i0, i1, c)
  {
    assert Key(0);
  }

  lemma StartTurn<T>(t: seq<T>, i0: nat, c: int)
    ensures Turned(t, t, i0, i0, c)
  {
    forall k | 0 <= k < |t| ensures FromImage(t, t, k, i0, i0, c) {
    }
    OpenTurned(t, t, i0, i0, c);
  }

  lemma TurnedNext<T>(s: seq<T>, t: seq<T>, i0: nat, i: nat, i1: nat, c: int)
    requires i0 <= i < i1 && (i1 <= c - i1 + 1 || c - i0 < i0) && Turned(s, t, i0, i, c) && i < |t| && 0 <= c - i < |t|
    ensures Turned(s, Swapped(t, i, c - i), i0, i + 1, c)
  {
    OpenTurned(s, t, i0, i, c);
    assert FromImage(s, t, i, i0, i, c) && FromImage(s, t, c - i, i0, i, c);
    var next, u := i + 1, Swapped(t, i, c - i);
    forall k | 0 <= k < |u| ensures FromImage(s, u, k, i0, next, c) {
      assert FromImage(s, t, k, i0, i, c);
    }
    OpenTurned(s, u, i0, next, c);
  }

  /** An exchange loop: swaps each place from `i0` to `i1` with its mirror image about `c`. */
  method Mirror<T>(a: array<T>, i0: nat, i1: nat, c: int, ghost s: seq<T>, ghost b: nat, ghost n: nat)
    requires i0 <= i1 && (i0 < i1 ==> b <= i0 && i1 <= b + n && b <= c - i1 + 1 && c - i0 < b + n)
    requires b + n <= a.Length && (i1 <= c - i1 + 1 || c - i0 < i0) && Shuffled(s, a[..], b, n)
    modifies a
    ensures Shuffled(s, a[..], b, n) && Mirrored(old(a[..]), a[..], i0, i1, c)
  {
    ghost var t := a[..];
    StartTurn(t, i0, c);
    for i := i0 to i1
      invariant Shuffled(s, a[..], b, n) && Turned(t, a[..], i0, i, c)
    {
      TurnedNext(t, a[..], i0, i, i1, c);
      SwapElement(a, i, c - i, s, b, n);
    }
    OpenTurned(t, a[..], i0, i1, c);
  }

  lemma MirrorZone<T>(s: seq<T>, t: seq<T>, key: T -> int, pvt: int, from: int, to: int, rel: int, i0: int, i1: int,
      c: int)
    requires Mirrored(s, t, i0, i1, c) && 0 <= from && to <= |t|
    requires forall k :: from <= k < to ==>
      0 <= Image(k, i0, i1, c) < |s| && Zone(s, key, pvt, Image(k, i0, i1, c), Image(k, i0, i1, c) + 1, rel)
    ensures Zone(t, key, pvt, from, to, rel)
  {
    forall k | from <= k < to ensures t[k] == s[Image(k, i0, i1, c)] {
      assert FromImage(s, t, k, i0, i1, c);
    }
  }

  lemma MirrorUp<T>(s: seq<T>, t: seq<T>, key: T -> int, pvt: int, b: nat, n: nat, le: nat, l: nat, ge: nat, i0: int,
      i1: int)
    requires Zones(s, key, pvt, b, n, le, l, l, ge) && Mirrored(s, t, i0, i1, b + (b + l - 1))
    requires if 2 * le > l then i0 == b + le && i1 == b + l else i0 == b && i1 == b + le
    ensures Zone(t, key, pvt, b, b + (l - le), -1) && Zone(t, key, pvt, b + (l - le), b + l, 0)
    ensures Zone(t, key, pvt, b + l, b + ge, 1) && Zone(t, key, pvt, b + ge, b + n, 0)
  {
    var c := b + (b + l - 1);
    MirrorZone(s, t, key, pvt, b, b + (l - le), -1, i0, i1, c);
    MirrorZone(s, t, key, pvt, b + (l - le), b + l, 0, i0, i1, c);
    MirrorZone(s, t, key, pvt, b + l, b + ge, 1, i0, i1, c);
    MirrorZone(s, t, key, pvt, b + ge, b + n, 0, i0, i1, c);
  }

  lemma MirrorDown<T>(s: seq<T>, t: seq<T>, key: T -> int, pvt: int, b: nat, n: nat, le: nat, l: nat, ge: nat,
      i0: int, i1: int)
    requires le <= l <= ge <= n && b + n <= |s| && Mirrored(s, t, i0, i1, b + (b + n + l - 1))
    requires Zone(s, key, pvt, b, b + (l - le), -1) && Zone(s, key, pvt, b + (l - le), b + l, 0)
    requires Zone(s, key, pvt, b + l, b + ge, 1) && Zone(s, key, pvt, b + ge, b + n, 0)
    requires if 2 * ge < n + l then i0 == b + l && i1 == b + ge else i0 == b + ge && i1 == b + n
    ensures Layout(t, key, pvt, b, n, l - le, ge - l)
  {
    var c := b + (b + n + l - 1);
    MirrorZone(s, t, key, pvt, b, b + (l - le), -1, i0, i1, c);
    MirrorZone(s, t, key, pvt, b + (l - le), b + n - (ge - l), 0, i0, i1, c);
    MirrorZone(s, t, key, pvt, b + n - (ge - l), b + n, 1, i0, i1, c);
  }

  /** Brings the equal keys at the front of the lower part behind its other keys. */
  method MoveUp<T>(a: array<T>, key: T -> int, ghost pvt: int, b: nat, n: nat, le: nat, l: nat, ghost ge: nat,
      ghost s: seq<T>)
    requires b + n <= a.Length && Zones(a[..], key, pvt, b, n, le, l, l, ge) && Shuffled(s, a[..], b, n)
    modifies a
    ensures Shuffled(s, a[..], b, n)
    ensures Zone(a[..], key, pvt, b, b + (l - le), -1) && Zone(a[..], key, pvt, b + (l - le), b + l, 0)
    ensures Zone(a[..], key, pvt, b + l, b + ge, 1) && Zone(a[..], key, pvt, b + ge, b + n, 0)
  {
    ghost var t := a[..];
    var i0, i1 := b, b + le;
    if 2 * le > l {
      i0, i1 := b + le, b + l;
    }
    Mirror(a, i0, i1, b + (b + l - 1), s, b, n);
    MirrorUp(t, a[..], key, pvt, b, n, le, l, ge, i0, i1);
  }

  /** Brings the equal keys at the end of the upper part before its other keys. */
  method MoveDown<T>(a: array<T>, key: T -> int, ghost pvt: int, b: nat, n: nat, ghost le: nat, l: nat, ge: nat,
      ghost s: seq<T>)
    requires b + n <= a.Length && le <= l <= ge <= n && Shuffled(s, a[..], b, n)
    requires Zone(a[..], key, pvt, b, b + (l - le), -1) && Zone(a[..], key, pvt, b + (l - le), b + l, 0)
    requires Zone(a[..], key, pvt, b + l, b + ge, 1) && Zone(a[..], key, pvt, b + ge, b + n, 0)
    modifies a
    ensures Shuffled(s, a[..], b, n) && Layout(a[..], key, pvt, b, n, l - le, ge - l)
  {
    ghost var t := a[..];
    var i0, i1 := b + ge, b + n;
    if 2 * ge < n + l {
      i0, i1 := b + l, b + ge;
    }
    Mirror(a, i0, i1, b + (b + n + l - 1), s, b, n);
    MirrorDown(t, a[..], key, pvt, b, n, le, l, ge, i0, i1);
  }

  /** The partition phase: `less` keys below the pivot, then the equal ones, then `greater` keys above it. */
  method Partition<T>(a: array<T>, key: T -> int, b: nat, n: nat, pos: nat) returns (less: nat, greater: nat)
    requires b + n <= a.Length && pos < n
    modifies a
    ensures PermutedWithin(old(a[..]), a[..], b, b + n - 1) && less + greater < n
    ensures Layout(a[..], key, key(old(a[b + pos])), b, n, less, greater)
  {
    ghost var s := a[..];
    var pvt := key(a[b + pos]);
    var le, l, ge := Gather(a, key, pvt, b, n);
    OpenZones(a[..], key, pvt, b, n, le, l, l, ge);
    MoveUp(a, key, pvt, b, n, le, l, ge, s);
    MoveDown(a, key, pvt, b, n, le, l, ge, s);
    less, greater := l - le, ge - l;
    OpenShuffled(s, a[..], b, n);
    PivotStays(s, a[..], key, pvt, b, n, pos, less, greater);
  }

  ghost predicate Layout<T>(s: seq<T>, key: T -> int, pvt: int, b: nat, n: nat, less: nat, greater: nat) {
    && less + greater <= n && Zone(s, key, pvt, b, b + less, -1)
    && Zone(s, key, pvt, b + less, b + n - greater, 0) && Zone(s, key, pvt, b + n - greater, b + n, 1)
  }

  /** The pivot itself is among the equal keys. */
  lemma PivotStays<T>(s: seq<T>, t: seq<T>, key: T -> int, pvt: int, b: nat, n: nat, pos: nat, less: nat, greater: nat)
    requires pos < n && b + n <= |s| && key(s[b + pos]) == pvt && PermutedWithin(s, t, b, b + n - 1)
    requires Layout(t, key, pvt, b, n, less, greater)
    ensures less + greater < n
  {
    PermutedBack(s, t, b, b + n - 1);
    var j := Origin(t, s, b, b + n - 1, b + pos);
    assert key(t[j]) == pvt;
  }

  lemma PermutedBack<T>(s: seq<T>, t: seq<T>, lo: int, hi: int)
    requires PermutedWithin(s, t, lo, hi)
    ensures PermutedWithin(t, s, lo, hi)
  {
  }

  ghost predicate InOrder<T>(s: seq<T>, key: T -> int, from: nat, to: nat) {
    to <= |s| && forall i, j :: from <= i < j < to ==> key(s[i]) <= key(s[j])
  }

  /** The whole sort, for any choice of pivots. */
  method Sort<T>(a: array<T>, key: T -> int, b: nat, n: nat)
    requires b + n <= a.Length
    modifies a
    ensures InOrder(a[..], key, b, b + n) && PermutedWithin(old(a[..]), a[..], b, b + n - 1)
    decreases n
  {
    if n > 1 {
      ghost var s := a[..];
      var pos :| 0 <= pos < n;
      var less, greater := Partition(a, key, b, n, pos);
      ghost var t, pvt := a[..], key(s[b + pos]);
      Sort(a, key, b, less);
      ghost var u := a[..];
      Sort(a, key, b + (n - greater), greater);
      PartsSorted(t, u, a[..], key, pvt, b, n, less, greater);
      PermutedTwice(s, t, a[..], b, b + n - 1);
    }
  }

  /** Sorting the two outer parts sorts the whole. */
  lemma PartsSorted<T>(t: seq<T>, u: seq<T>, v: seq<T>, key: T -> int, pvt: int, b: nat, n: nat, less: nat,
      greater: nat)
    requires b + n <= |t| && less + greater < n && Layout(t, key, pvt, b, n, less, greater)
    requires InOrder(u, key, b, b + less) && PermutedWithin(t, u, b, b + less - 1)
    requires InOrder(v, key, b + n - greater, b + n)
      && PermutedWithin(u, v, b + (n - greater), b + (n - greater) + greater - 1)
    ensures InOrder(v, key, b, b + n) && PermutedWithin(t, v, b, b + n - 1)
  {
    forall k | b <= k < b + less ensures key(v[k]) < pvt {
      var j := Origin(t, u, b, b + less - 1, k);
    }
    forall k | b + n - greater <= k < b + n ensures key(v[k]) > pvt {
      var j := Origin(u, v, b + (n - greater), b + n - 1, k);
    }
    forall i, j | b <= i < j < b + n ensures key(v[i]) <= key(v[j]) {
      assert i < b + less ==> v[i] == u[i];
      assert j < b + less ==> v[j] == u[j];
    }
  }
}
