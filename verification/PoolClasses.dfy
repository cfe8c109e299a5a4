/** The eight size classes of the native code pool and the addresses of their blocks. */
module PoolClasses {
  import opened CodePool

  const CLASSES: nat := 8
  const CLASS_BYTES: nat := 0x1000_0000

  function ClassWidths(c: nat): Widths
    requires c < CLASSES
  {
    if c == 0 then [16, 64, 64] else if c == 1 then [16, 32, 64] else if c == 2 then [16, 16, 64]
    else if c == 3 then [16, 16, 32] else if c == 4 then [64, 64] else if c == 5 then [32, 64]
    else if c == 6 then [16, 64] else [16, 32]
  }

  function BlockSize(c: nat): (r: nat)
    requires c < CLASSES
    ensures r > 0
  {
    if c == 0 then 0x1000 else if c == 1 then 0x2000 else if c == 2 then 0x4000 else if c == 3 then 0x8000
    else if c == 4 then 0x1_0000 else if c == 5 then 0x2_0000 else if c == 6 then 0x4_0000 else 0x8_0000
  }

  function Blocks(c: nat): nat
    requires c < CLASSES
  {
    Capacity(ClassWidths(c))
  }

  lemma CapacityTwo(a: nat, b: nat)
    ensures Capacity([a, b]) == a * b
  {
    assert [a, b][..1] == [a];
    CapacityOne(a);
  }

  lemma CapacityThree(a: nat, b: nat, c: nat)
    ensures Capacity([a, b, c]) == a * b * c
  {
    assert [a, b, c][..2] == [a, b];
    CapacityTwo(a, b);
  }

  /** The blocks of a class fill its part of the pool. */
  lemma ClassFilled(c: nat)
    requires c < CLASSES
    ensures Blocks(c) * BlockSize(c) == CLASS_BYTES
  {
    CapacityThree(16, 64, 64);
    CapacityThree(16, 32, 64);
    CapacityThree(16, 16, 64);
    CapacityThree(16, 16, 32);
    CapacityTwo(64, 64);
    CapacityTwo(32, 64);
    CapacityTwo(16, 64);
    CapacityTwo(16, 32);
  }

  /** Offset of block `x` of class `c` from `NativeCodePool`. */
  function Address(c: nat, x: nat): nat
    requires c < CLASSES
  {
    CLASS_BYTES * c + x * BlockSize(c)
  }

  lemma BlockInside(c: nat, x: nat)
    requires c < CLASSES && x < Blocks(c)
    ensures x * BlockSize(c) + BlockSize(c) <= CLASS_BYTES
  {
    ClassFilled(c);
    assert (x + 1) * BlockSize(c) <= Blocks(c) * BlockSize(c);
  }

  /** An address leads back to its class and block. */
  lemma AddressDecodes(c: nat, x: nat)
    requires c < CLASSES && x < Blocks(c)
    ensures Address(c, x) / CLASS_BYTES == c && Address(c, x) % CLASS_BYTES / BlockSize(c) == x
  {
    BlockInside(c, x);
    Decode(c, x * BlockSize(c), CLASS_BYTES);
    Decode(x, 0, BlockSize(c));
  }

  /** Different blocks, of one class or of two, have no byte in common. */
  lemma BlocksApart(c: nat, x: nat, d: nat, y: nat)
    requires c < CLASSES && d < CLASSES && x < Blocks(c) && y < Blocks(d) && (c, x) != (d, y)
    ensures Address(c, x) + BlockSize(c) <= Address(d, y) || Address(d, y) + BlockSize(d) <= Address(c, x)
  {
    BlockInside(c, x);
    BlockInside(d, y);
    if c == d && x < y {
      assert (x + 1) * BlockSize(c) <= y * BlockSize(c);
    } else if c == d {
      assert (y + 1) * BlockSize(c) <= x * BlockSize(c);
    }
  }

  lemma {:induction false} AllBitsSize(c: nat)
    ensures |AllBits(c)| == c
  {
    if c > 0 {
      AllBitsSize(c - 1);
    }
  }

  /** The address of a free block leads back to it, and with it the bitmaps are complete again. */
  lemma TakenAndBack(c: nat, m: Levels, x: nat)
    requires c < CLASSES && Sound(m, ClassWidths(c)) && x in Free(m)
    ensures Address(c, x) < CLASSES * CLASS_BYTES
    ensures Address(c, x) / CLASS_BYTES == c && Address(c, x) % CLASS_BYTES / BlockSize(c) == x
    ensures Built(ClassWidths(c), Free(m) - {x} + {x}) == m
  {
    var w: Widths := ClassWidths(c);
    FreeBelow(m, w, |w| - 1);
    assert w[..|w|] == w;
    BlockInside(c, x);
    AddressDecodes(c, x);
    BuiltSound(m, w);
    assert Free(m) - {x} + {x} == Free(m);
  }

  /** The pools of all classes. */
  class NativeCodePools {
    const pools: seq<Pool>

    constructor ()
      ensures Valid() && fresh(set p | p in pools)
    {
      var ps: seq<Pool> := [];
      for c := 0 to CLASSES
        invariant |ps| == c && (forall i :: 0 <= i < c ==> fresh(ps[i]))
        invariant forall i, j :: 0 <= i < j < c ==> ps[i] != ps[j]
        invariant forall i :: 0 <= i < c ==> ps[i].widths == ClassWidths(i) && ps[i].Valid()
      {
        var p := new Pool(ClassWidths(c));
        ps := ps + [p];
      }
      pools := ps;
    }

    ghost predicate Valid()
      reads this, pools
    {
      && |pools| == CLASSES
      && (forall c, d :: 0 <= c < d < CLASSES ==> pools[c] != pools[d])
      && forall c :: 0 <= c < CLASSES ==> pools[c].widths == ClassWidths(c) && pools[c].Valid()
    }

    /** `NativeCodePoolAlloc`: the lowest free block of the class. */
    method Alloc(size: nat) returns (found: bool, ptr: nat)
      requires Valid()
      modifies pools
      ensures Valid() && (size >= CLASSES ==> !found)
      ensures forall c :: 0 <= c < CLASSES && c != size ==> pools[c].levels == old(pools[c].levels)
      ensures size < CLASSES ==>
        var f := Free(old(pools[size].levels));
        && (found <==> f != {})
        && (if found then exists x ::
          IsLeast(f, x) && ptr == Address(size, x) && pools[size].levels == Built(ClassWidths(size), f - {x})
            else pools[size].levels == old(pools[size].levels))
    {
      found, ptr := false, 0;
      if size < CLASSES {
        var x;
        found, x := pools[size].Alloc();
        if found {
          ptr := Address(size, x);
        }
      }
    }

    /** `NativeCodePoolFree`: the block that the address decodes to is free again. */
    method Release(poolptr: nat)
      requires Valid() && poolptr < CLASSES * CLASS_BYTES
      modifies pools
      ensures Valid()
      ensures var c := poolptr / CLASS_BYTES;
        && pools[c].levels == Built(ClassWidths(c), Free(old(pools[c].levels)) + {poolptr % CLASS_BYTES / BlockSize(c)})
        && forall d :: 0 <= d < CLASSES && d != c ==> pools[d].levels == old(pools[d].levels)
    {
      var c := poolptr / CLASS_BYTES;
      ClassFilled(c);
      QuotientUpper(poolptr % CLASS_BYTES, BlockSize(c), Blocks(c));
      pools[c].Release(poolptr % CLASS_BYTES / BlockSize(c));
    }

    /** Freeing what was just allocated leaves all bitmaps of all classes as they were. */
    method AllocThenRelease(size: nat)
      requires Valid()
      modifies pools
      ensures Valid() && forall c :: 0 <= c < CLASSES ==> pools[c].levels == old(pools[c].levels)
    {
      var found, ptr := Alloc(size);
      if found {
        ghost var m := old(pools[size].levels);
        ghost var x :| IsLeast(Free(m), x) && ptr == Address(size, x);
        TakenAndBack(size, m, x);
        Release(ptr);
      }
    }
  }

  lemma QuotientUpper(x: nat, width: nat, c: nat)
    requires width > 0 && x < c * width
    ensures x / width < c
  {
    QuotientAbove(x, width, c);
  }
}
