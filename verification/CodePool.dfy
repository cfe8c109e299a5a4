/** The native code pool of src/NativeCodeBlocktmp.c: eight size classes, each a stack of bitmaps in which a
    bit of one level says whether a word of the next is non-zero. */
module CodePool {
  /** Level `d` is the set of its bits, word `k` being those from `k * widths[d]` on. */
  type Levels = seq<set<nat>>

  type Widths = w: seq<nat> | |w| > 0 && forall d :: 0 <= d < |w| ==> w[d] > 0 witness [1]

  function Word(bits: set<nat>, width: nat, k: nat): set<nat>
    requires width > 0
  {
    set x | x in bits && x / width == k
  }

  /** The words of a level that are not zero. */
  function NonZero(bits: set<nat>, width: nat): set<nat>
    requires width > 0
  {
    set x | x in bits :: x / width
  }

  /** Level `d` tells which words of level `d + 1` are not zero. */
  ghost predicate Summarises(m: Levels, w: Widths, d: nat)
    requires |m| == |w| && d + 1 < |m|
  {
    m[d] == NonZero(m[d + 1], w[d + 1])
  }

  ghost predicate Sound(m: Levels, w: Widths) {
    && |m| == |w| && (forall d :: 0 <= d < |m| - 1 ==> Summarises(m, w, d))
    && forall x :: x in m[0] ==> x < w[0]
  }

  /** The free blocks. */
  function Free(m: Levels): set<nat>
    requires |m| > 0
  {
    m[|m| - 1]
  }

  /** How many blocks levels `0` to `d` can tell apart. */
  function Capacity(w: seq<nat>): nat {
    if w == [] then 1 else Capacity(w[..|w| - 1]) * w[|w| - 1]
  }

  /** The bitmaps that go with a set of free blocks. */
  function Built(w: Widths, free: set<nat>): (m: Levels)
    ensures |m| == |w| && m[|m| - 1] == free
  {
    if |w| == 1 then [free] else Built(w[..|w| - 1], NonZero(free, w[|w| - 1])) + [free]
  }

  /** The free blocks determine all the bitmaps. */
  lemma {:induction false} BuiltSound(m: Levels, w: Widths)
    requires |m| == |w| && forall d :: 0 <= d < |m| - 1 ==> Summarises(m, w, d)
    ensures m == Built(w, Free(m))
  {
    if |w| > 1 {
      var n, v := m[..|m| - 1], w[..|w| - 1];
      forall d | 0 <= d < |n| - 1 ensures Summarises(n, v, d) {
        assert Summarises(m, w, d);
      }
      BuiltSound(n, v);
      assert Summarises(m, w, |m| - 2);
      assert m == n + [Free(m)];
    } else {
      assert m == [Free(m)];
    }
  }

  /** Every free block fits the pool. */
  lemma {:induction false} FreeBelow(m: Levels, w: Widths, d: nat)
    requires Sound(m, w) && d < |m|
    ensures forall x :: x in m[d] ==> x < Capacity(w[..d + 1])
  {
    if d == 0 {
      assert w[..1] == [w[0]];
      CapacityOne(w[0]);
    } else {
      FreeBelow(m, w, d - 1);
      assert Summarises(m, w, d - 1);
      var c, v := Capacity(w[..d]), w[..d + 1];
      assert v[..|v| - 1] == w[..d];
      forall x | x in m[d] ensures x < c * w[d] {
        assert x / w[d] in m[d - 1];
        QuotientBelow(x, w[d], c);
      }
    }
  }

  lemma QuotientBelow(x: nat, width: nat, c: nat)
    requires width > 0 && x / width < c
    ensures x < c * width
  {
    QuotientUnder(x, width, c);
  }

  lemma QuotientUnder(x: nat, width: nat, c: nat)
    requires width > 0
    ensures x / width < c ==> x < c * width
  {
    if x / width < c {
      assert x < (x / width + 1) * width;
      assert (x / width + 1) * width <= c * width;
    }
  }

  predicate IsLeast(bits: set<nat>, x: nat) { x in bits && forall y :: y in bits ==> x <= y }

  lemma QuotientAbove(x: nat, width: nat, c: nat)
    requires width > 0
    ensures c <= x / width ==> c * width <= x
  {
    if c <= x / width {
      assert c * width <= (x / width) * width;
    }
  }

  /** The lowest bit that is set: `bsf`. */
  function Lowest(bits: set<nat>): (x: nat)
    requires bits != {}
    ensures IsLeast(bits, x)
  {
    LowestExists(bits);
    var x :| IsLeast(bits, x);
    x
  }

  lemma {:induction false} LowestExists(bits: set<nat>)
    requires bits != {}
    ensures exists x :: IsLeast(bits, x)
    decreases |bits|
  {
    var z :| z in bits;
    var rest := bits - {z};
    assert bits == rest + {z};
    if rest == {} {
      assert IsLeast(bits, z);
    } else {
      LowestExists(rest);
      var x :| IsLeast(rest, x);
      assert IsLeast(bits, if z < x then z else x);
    }
  }

  /** The lowest bit of the lowest non-zero word is the lowest of the level: the scan never sees a zero word. */
  lemma ScanDown(above: set<nat>, bits: set<nat>, width: nat, x: nat)
    requires width > 0 && above == NonZero(bits, width) && IsLeast(above, x)
    ensures Word(bits, width, x) != {}
    ensures IsLeast(bits, Lowest(Word(bits, width, x)))
  {
    var b :| b in bits && b / width == x;
    assert b in Word(bits, width, x);
    var z := Lowest(Word(bits, width, x));
    forall y | y in bits ensures z <= y {
      assert y / width in above;
      if y / width == x {
        assert y in Word(bits, width, x);
      } else {
        QuotientOrder(z, y, width);
      }
    }
  }

  lemma QuotientOrder(x: nat, y: nat, width: nat)
    requires width > 0 && x / width < y / width
    ensures x < y
  {
    assert x < (x / width + 1) * width;
    assert (x / width + 1) * width <= (y / width) * width <= y;
  }

  // --- Start ---

  function AllBits(c: nat): (s: set<nat>)
    ensures forall x: nat :: x in s <==> x < c
  {
    if c == 0 then {} else AllBits(c - 1) + {c - 1}
  }

  /** Every bit of every level set. */
  function Full(w: Widths): (m: Levels)
    ensures |m| == |w|
  {
    seq(|w|, d requires 0 <= d < |w| => AllBits(Capacity(w[..d + 1])))
  }

  lemma FullSound(w: Widths)
    ensures Sound(Full(w), w) && Free(Full(w)) == AllBits(Capacity(w))
  {
    assert w[..|w|] == w;
    forall d | 0 <= d < |w| - 1 ensures Summarises(Full(w), w, d) {
      FullLevel(w, d);
    }
    assert w[..1] == [w[0]];
    CapacityOne(w[0]);
  }

  lemma CapacityOne(width: nat)
    ensures Capacity([width]) == width
  {
    assert [width][..0] == [];
  }

  lemma FullLevel(w: Widths, d: nat)
    requires d + 1 < |w|
    ensures Summarises(Full(w), w, d)
  {
    assert w[..d + 2][..d + 1] == w[..d + 1];
    AllNonZero(Capacity(w[..d + 1]), w[d + 1]);
  }

  lemma AllNonZero(c: nat, width: nat)
    requires width > 0
    ensures NonZero(AllBits(c * width), width) == AllBits(c)
  {
    forall y: nat | y < c ensures y in NonZero(AllBits(c * width), width) {
      Decode(y, 0, width);
      assert y * width < c * width;
      assert y * width in AllBits(c * width);
    }
    forall x | x in AllBits(c * width) ensures x / width < c {
      QuotientAbove(x, width, c);
    }
  }

  /** Word and bit of a number. */
  lemma Decode(k: nat, b: nat, width: nat)
    requires b < width
    ensures (k * width + b) / width == k && (k * width + b) % width == b
  {
    var x := k * width + b;
    QuotientAbove(x, width, k + 1);
    QuotientUnder(x, width, k);
    assert x == (x / width) * width + x % width;
  }

  // --- Taking and giving back ---

  /** The levels agree above and below; level `d - 1` may still say that the word of `y` is not zero. */
  ghost predicate Stale(m: Levels, w: Widths, d: nat, y: nat) {
    && |m| == |w| && d < |m| && (forall e :: 0 <= e < |m| - 1 && e != d - 1 ==> Summarises(m, w, e))
    && (d > 0 ==> m[d - 1] == NonZero(m[d], w[d]) + {y / w[d]})
    && forall x :: x in m[0] ==> x < w[0]
  }

  /** The first bit goes. */
  lemma StaleFirst(m: Levels, w: Widths, y: nat)
    requires Sound(m, w) && y in Free(m)
    ensures Stale(m[|m| - 1 := Free(m) - {y}], w, |m| - 1, y)
  {
    var d, n := |m| - 1, m[|m| - 1 := Free(m) - {y}];
    if d > 0 {
      assert Summarises(m, w, d - 1);
      Reset(m[d], w[d], y);
    }
    forall e | 0 <= e < |n| - 1 && e != d - 1 ensures Summarises(n, w, e) {
      assert Summarises(m, w, e);
    }
  }

  /** The word of `y` has become zero: its bit above goes. */
  lemma StaleUp(m: Levels, w: Widths, d: nat, y: nat)
    requires Stale(m, w, d, y) && d > 0 && Word(m[d], w[d], y / w[d]) == {}
    ensures Stale(m[d - 1 := m[d - 1] - {y / w[d]}], w, d - 1, y / w[d])
  {
    var z, n := y / w[d], m[d - 1 := m[d - 1] - {y / w[d]}];
    forall x | x in m[d] ensures x / w[d] != z {
      assert (x in Word(m[d], w[d], z)) == (x / w[d] == z);
    }
    assert n[d - 1] == NonZero(m[d], w[d]);
    assert Summarises(n, w, d - 1);
    if d > 1 {
      assert Summarises(m, w, d - 2);
      Reset(m[d - 1], w[d - 1], z);
    }
    forall e | 0 <= e < |n| - 1 && e != d - 2 ensures Summarises(n, w, e) {
      if e != d - 1 {
        assert Summarises(m, w, e);
      }
    }
  }

  lemma StaleDone(m: Levels, w: Widths, d: nat, y: nat)
    requires Stale(m, w, d, y) && (d > 0 ==> Word(m[d], w[d], y / w[d]) != {})
    ensures Sound(m, w)
  {
    if d > 0 {
      var x :| x in Word(m[d], w[d], y / w[d]);
      assert y / w[d] in NonZero(m[d], w[d]);
      assert Summarises(m, w, d - 1);
    }
  }

  lemma Reset(bits: set<nat>, width: nat, y: nat)
    requires width > 0 && y in bits
    ensures NonZero(bits, width) == NonZero(bits - {y}, width) + {y / width}
  {
    forall x | x in bits && x != y ensures x / width in NonZero(bits - {y}, width) {
      assert x in bits - {y};
    }
  }

  lemma SetBit(bits: set<nat>, width: nat, y: nat)
    requires width > 0
    ensures NonZero(bits + {y}, width) == NonZero(bits, width) + {y / width}
  {
    forall x | x in bits ensures x / width in NonZero(bits + {y}, width) {
      assert x in bits + {y};
    }
    assert y in bits + {y};
  }

  /** One pool. */
  class Pool {
    const widths: Widths
    var levels: Levels

    constructor (w: Widths)
      ensures Valid() && widths == w && Free(levels) == AllBits(Capacity(w))
    {
      widths := w;
      levels := Full(w);
      FullSound(w);
    }

    ghost predicate Valid()
      reads this
    {
      Sound(levels, widths)
    }

    /** Scans down the levels for the lowest free block. */
    method Scan() returns (x: nat)
      requires Valid() && levels[0] != {}
      ensures IsLeast(Free(levels), x)
    {
      x := Lowest(levels[0]);
      var d := 1;
      while d < |levels|
        invariant 1 <= d <= |levels| && IsLeast(levels[d - 1], x)
      {
        assert Summarises(levels, widths, d - 1);
        ScanDown(levels[d - 1], levels[d], widths[d], x);
        x := Lowest(Word(levels[d], widths[d], x));
        d := d + 1;
      }
    }

    /** Resets bits from the last level up, as long as words become zero. */
    method ResetUp(x: nat)
      requires Valid() && x in Free(levels)
      modifies this`levels
      ensures Valid() && Free(levels) == Free(old(levels)) - {x}
    {
      var d, y := |levels| - 1, x;
      StaleFirst(levels, widths, x);
      levels := levels[d := levels[d] - {y}];
      while d > 0 && Word(levels[d], widths[d], y / widths[d]) == {}
        invariant 0 <= d < |levels| && |levels| == |widths| && Stale(levels, widths, d, y)
        invariant Free(levels) == Free(old(levels)) - {x}
        decreases d
      {
        StaleUp(levels, widths, d, y);
        y := y / widths[d];
        d := d - 1;
        levels := levels[d := levels[d] - {y}];
      }
      StaleDone(levels, widths, d, y);
    }

    /** `__NativeCodePoolAlloc*` between locking and unlocking: the lowest free block, if there is one. */
    method Alloc() returns (found: bool, x: nat)
      requires Valid()
      modifies this`levels
      ensures Valid() && (found <==> Free(old(levels)) != {})
      ensures found ==> IsLeast(Free(old(levels)), x) && levels == Built(widths, Free(old(levels)) - {x})
      ensures !found ==> levels == old(levels)
    {
      found, x := false, 0;
      EmptyLevels(levels, widths);
      if levels[0] != {} {
        found := true;
        x := Scan();
        ResetUp(x);
        BuiltSound(levels, widths);
      }
    }

    /** `__NativeCodePoolFree*` between locking and unlocking. */
    method Release(x0: nat)
      requires Valid() && x0 < Capacity(widths)
      modifies this`levels
      ensures Valid() && levels == Built(widths, Free(old(levels)) + {x0})
    {
      var d, x := |levels|, x0;
      while d > 0
        invariant 0 <= d <= |levels| && |levels| == |widths|
        invariant Rising(old(levels), levels, widths, d, x0, x)
        decreases d
      {
        RisingStep(old(levels), levels, widths, d, x0, x);
        levels := levels[d - 1 := levels[d - 1] + {x}];
        x := x / widths[d - 1];
        d := d - 1;
      }
      RisingDone(old(levels), levels, widths, x0, x);
      BuiltSound(levels, widths);
    }
  }

  /** No bit at the top, no free block. */
  lemma {:induction false} EmptyLevels(m: Levels, w: Widths)
    requires Sound(m, w)
    ensures m[0] == {} <==> Free(m) == {}
  {
    forall d | 0 <= d < |m| ensures m[d] == {} <==> m[0] == {} {
      EmptyLevel(m, w, d);
    }
  }

  lemma {:induction false} EmptyLevel(m: Levels, w: Widths, d: nat)
    requires Sound(m, w) && d < |m|
    ensures m[d] == {} <==> m[0] == {}
  {
    if d > 0 {
      EmptyLevel(m, w, d - 1);
      assert Summarises(m, w, d - 1);
      if m[d] != {} {
        var x :| x in m[d];
        assert x / w[d] in m[d - 1];
      }
    }
  }

  /** Ancestor of block `x` at level `d - 1`, or above all levels. */
  function Ancestor(w: seq<nat>, d: nat, x: nat): nat
    requires d <= |w| && forall e :: 0 <= e < |w| ==> w[e] > 0
    decreases |w| - d
  {
    if d == |w| then x else Ancestor(w, d + 1, x) / w[d]
  }

  /** Levels from `d` on have the bits for `x0` set. */
  ghost predicate Rising(m0: Levels, m: Levels, w: Widths, d: nat, x0: nat, x: nat) {
    && |m0| == |m| == |w| && d <= |m| && x == Ancestor(w, d, x0)
    && (forall e :: 0 <= e < d ==> m[e] == m0[e])
    && forall e :: d <= e < |m| ==> m[e] == m0[e] + {Ancestor(w, e + 1, x0)}
  }

  lemma RisingStep(m0: Levels, m: Levels, w: Widths, d: nat, x0: nat, x: nat)
    requires d > 0 && Rising(m0, m, w, d, x0, x)
    ensures Rising(m0, m[d - 1 := m[d - 1] + {x}], w, d - 1, x0, x / w[d - 1])
  {
  }

  lemma RisingDone(m0: Levels, m: Levels, w: Widths, x0: nat, x: nat)
    requires Sound(m0, w) && Rising(m0, m, w, 0, x0, x) && x0 < Capacity(w)
    ensures Sound(m, w) && Free(m) == Free(m0) + {x0}
  {
    forall d | 0 <= d < |m| - 1 ensures Summarises(m, w, d) {
      assert Summarises(m0, w, d);
      SetBit(m0[d + 1], w[d + 1], Ancestor(w, d + 2, x0));
    }
    AncestorBelow(w, 1, x0);
    assert w[..1] == [w[0]];
    CapacityOne(w[0]);
  }

  lemma {:induction false} AncestorBelow(w: Widths, d: nat, x: nat)
    requires d <= |w| && x < Capacity(w)
    ensures Ancestor(w, d, x) < Capacity(w[..d])
    decreases |w| - d
  {
    if d == |w| {
      assert w[..d] == w;
    } else {
      AncestorBelow(w, d + 1, x);
      assert w[..d + 1][..d] == w[..d];
      var y, c := Ancestor(w, d + 1, x), Capacity(w[..d]);
      QuotientAbove(y, w[d], c);
    }
  }

  /** Any set of blocks of the pool can be the free ones. */
  lemma BuiltStaysSound(w: Widths, free: set<nat>)
    requires forall x :: x in free ==> x < Capacity(w)
    ensures Sound(Built(w, free), w)
  {
    BuiltSummarises(w, free);
    BuiltTop(w, free);
  }

  lemma {:induction false} BuiltSummarises(w: Widths, free: set<nat>)
    ensures forall d :: 0 <= d < |w| - 1 ==> Summarises(Built(w, free), w, d)
  {
    if |w| > 1 {
      var v, above := w[..|w| - 1], NonZero(free, w[|w| - 1]);
      BuiltSummarises(v, above);
      var m, n := Built(w, free), Built(v, above);
      forall d | 0 <= d < |w| - 1 ensures Summarises(m, w, d) {
        if d < |w| - 2 {
          assert Summarises(n, v, d);
          assert m[d] == n[d] && m[d + 1] == n[d + 1] && w[d + 1] == v[d + 1];
        }
      }
    }
  }

  lemma {:induction false} BuiltTop(w: Widths, free: set<nat>)
    requires forall x :: x in free ==> x < Capacity(w)
    ensures forall x :: x in Built(w, free)[0] ==> x < w[0]
  {
    var c, last := Capacity(w[..|w| - 1]), w[|w| - 1];
    if |w| > 1 {
      forall y | y in NonZero(free, last) ensures y < c {
        var x :| x in free && x / last == y;
        QuotientAbove(x, last, c);
      }
      BuiltTop(w[..|w| - 1], NonZero(free, last));
    } else {
      assert w == [w[0]];
      CapacityOne(w[0]);
    }
  }
}
