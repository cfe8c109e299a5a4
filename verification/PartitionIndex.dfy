/** The partition index of a translated block: the binary search of src/NativeCodeBlock.c and the stepping
    that finds the native address of an I0 address. */
module PartitionIndex {
  /** `NativeCodePartitionEntry`: offsets of an instruction in the I0 code and in the native code. */
  datatype Part = Part(nativeOffset: nat, i0Offset: nat)

  datatype Place = Place(i0: nat, native: nat)

  /** What one decoding step depends on: the lengths of the instruction at an I0 address and of its native code. */
  datatype Decoder = Decoder(len: nat -> nat, size: nat -> nat)

  ghost predicate Moves(d: Decoder) { forall i0 :: d.len(i0) > 0 }

  /** `FakeStepI0`: both addresses move past one instruction. */
  function Step(d: Decoder, p: Place): Place { Place(p.i0 + d.len(p.i0), p.native + d.size(p.i0)) }

  /** The place after `k` instructions. */
  function After(d: Decoder, start: Place, k: nat): Place {
    if k == 0 then start else Step(d, After(d, start, k - 1))
  }

  ghost predicate Boundary(d: Decoder, start: Place, p: Place) { exists k: nat :: After(d, start, k) == p }

  /** Stepping until `spc` is reached or passed. */
  function StepTo(d: Decoder, p: Place, spc: nat): Place
    requires Moves(d)
    decreases spc - p.i0
  {
    if p.i0 < spc then StepTo(d, Step(d, p), spc) else p
  }

  /** From a boundary not beyond `spc` stepping arrives where it would have from the start. */
  lemma {:induction false} StepFromBoundary(d: Decoder, start: Place, k: nat, spc: nat)
    requires Moves(d) && After(d, start, k).i0 <= spc
    ensures StepTo(d, After(d, start, k), spc) == StepTo(d, start, spc)
  {
    if k > 0 {
      StepFromBoundary(d, start, k - 1, spc);
    }
  }

  lemma {:induction false} AfterGrows(d: Decoder, start: Place, j: nat, k: nat)
    requires Moves(d) && j <= k
    ensures After(d, start, j).i0 + (k - j) <= After(d, start, k).i0
  {
    if j < k {
      AfterGrows(d, start, j, k - 1);
    }
  }

  /** The stepping does not depend on where the native code lies. */
  lemma {:induction false} AfterMoves(d: Decoder, i0: nat, native: nat, newbase: nat, k: nat)
    ensures After(d, Place(i0, newbase), k).i0 == After(d, Place(i0, native), k).i0
    ensures After(d, Place(i0, newbase), k).native + native == After(d, Place(i0, native), k).native + newbase
  {
    if k > 0 {
      AfterMoves(d, i0, native, newbase, k - 1);
    }
  }

  lemma BoundaryMoves(d: Decoder, i0: nat, native: nat, newbase: nat, e: Part)
    requires Boundary(d, Place(i0, native), Place(i0 + e.i0Offset, native + e.nativeOffset))
    ensures Boundary(d, Place(i0, newbase), Place(i0 + e.i0Offset, newbase + e.nativeOffset))
  {
    var k: nat :| After(d, Place(i0, native), k) == Place(i0 + e.i0Offset, native + e.nativeOffset);
    AfterMoves(d, i0, native, newbase, k);
  }

  /** An index stays right when the native code moves. */
  lemma IndexedMoves(list: seq<Part>, d: Decoder, i0: nat, native: nat, newbase: nat)
    requires Indexed(list, d, Place(i0, native))
    ensures Indexed(list, d, Place(i0, newbase))
  {
    forall i | 0 <= i < |list|
      ensures Boundary(d, Place(i0, newbase), Place(i0 + list[i].i0Offset, newbase + list[i].nativeOffset)) {
      BoundaryMoves(d, i0, native, newbase, list[i]);
    }
  }

  /** Stepping ends at the first boundary that is not before `spc`. */
  lemma {:induction false} StepToFirst(d: Decoder, start: Place, k: nat, spc: nat) returns (m: nat)
    requires Moves(d) && (k == 0 || After(d, start, k - 1).i0 < spc)
    ensures m >= k && StepTo(d, After(d, start, k), spc) == After(d, start, m) && spc <= After(d, start, m).i0
    ensures m == 0 || After(d, start, m - 1).i0 < spc
    decreases spc - After(d, start, k).i0
  {
    if After(d, start, k).i0 < spc {
      m := StepToFirst(d, start, k + 1, spc);
    } else {
      m := k;
    }
  }

  /** Stepping reaches `spc` itself exactly when an instruction starts there. */
  lemma ReachesExactly(d: Decoder, start: Place, spc: nat)
    requires Moves(d) && start.i0 <= spc
    ensures StepTo(d, start, spc).i0 == spc <==> exists k: nat :: After(d, start, k).i0 == spc
    ensures Boundary(d, start, StepTo(d, start, spc))
  {
    var m := StepToFirst(d, start, 0, spc);
    if k: nat :| After(d, start, k).i0 == spc {
      ReachedFirst(d, start, spc, k, m);
    }
  }

  /** The first boundary that is not before `spc` is `spc` itself, if that is a boundary. */
  lemma ReachedFirst(d: Decoder, start: Place, spc: nat, k: nat, m: nat)
    requires Moves(d) && After(d, start, k).i0 == spc <= After(d, start, m).i0
      && (m == 0 || After(d, start, m - 1).i0 < spc)
    ensures After(d, start, m).i0 == spc
  {
    if m <= k {
      AfterGrows(d, start, m, k);
    } else {
      AfterGrows(d, start, k, m - 1);
    }
  }

  /** The entries are in order, and each is for an instruction of the block that starts at `start`. */
  ghost predicate Indexed(list: seq<Part>, d: Decoder, start: Place) {
    && (forall i, j :: 0 <= i < j < |list| ==> list[i].i0Offset <= list[j].i0Offset)
    && forall i :: 0 <= i < |list| ==>
      Boundary(d, start, Place(start.i0 + list[i].i0Offset, start.native + list[i].nativeOffset))
  }

  /** The last entry not beyond `i0Offset`, the start of the block when there is none. */
  ghost predicate Nearest(list: seq<Part>, i0Offset: nat, e: Part) {
    if exists p :: p in list && p.i0Offset <= i0Offset
    then
      && e in list && e.i0Offset <= i0Offset
      && forall p :: p in list && p.i0Offset <= i0Offset ==> p.i0Offset <= e.i0Offset
    else e == Part(0, 0)
  }

  method FindNCPartitionBySpc(list: seq<Part>, i0Offset: nat) returns (e: Part)
    requires forall i, j :: 0 <= i < j < |list| ==> list[i].i0Offset <= list[j].i0Offset
    ensures Nearest(list, i0Offset, e)
  {
    var size, i := |list|, 0;
    while size > 0
      invariant 0 <= size && 0 <= i && i + size <= |list|
      invariant forall k :: 0 <= k < i ==> list[k].i0Offset <= i0Offset
      invariant forall k :: i + size <= k < |list| ==> i0Offset < list[k].i0Offset
      decreases size
    {
      var value := list[i + size / 2].i0Offset;
      if value <= i0Offset {
        i := i + size / 2 + 1;
        size := (size - 1) / 2;
      } else {
        size := size / 2;
      }
    }
    e := if i > 0 then list[i - 1] else Part(0, 0);
    NearestAt(list, i0Offset, i);
  }

  lemma NearestAt(list: seq<Part>, i0Offset: nat, i: nat)
    requires forall j, k :: 0 <= j < k < |list| ==> list[j].i0Offset <= list[k].i0Offset
    requires i <= |list| && forall k :: 0 <= k < i ==> list[k].i0Offset <= i0Offset
    requires forall k :: i <= k < |list| ==> i0Offset < list[k].i0Offset
    ensures Nearest(list, i0Offset, if i > 0 then list[i - 1] else Part(0, 0))
  {
    if i > 0 {
      assert list[i - 1] in list;
      forall p | p in list && p.i0Offset <= i0Offset ensures p.i0Offset <= list[i - 1].i0Offset {
        var k :| 0 <= k < |list| && list[k] == p;
      }
    }
  }

  /** The lookup path of `Translate` for an address in a block: the native address that stepping from the start of
      the block would find, and whether an instruction starts at `spc`. */
  method FindNative(list: seq<Part>, d: Decoder, start: Place, spc: nat) returns (p: Place, exact: bool)
    requires Moves(d) && Indexed(list, d, start) && start.i0 <= spc
    ensures p == StepTo(d, start, spc) && (exact <==> p.i0 == spc)
      && (exact <==> exists k: nat :: After(d, start, k).i0 == spc)
  {
    var e := FindNCPartitionBySpc(list, spc - start.i0);
    p := Place(start.i0 + e.i0Offset, start.native + e.nativeOffset);
    EntryIsBoundary(list, d, start, spc - start.i0, e);
    ghost var k: nat :| After(d, start, k) == p;
    StepFromBoundary(d, start, k, spc);
    while p.i0 < spc
      invariant StepTo(d, p, spc) == StepTo(d, start, spc)
      decreases spc - p.i0
    {
      p := Step(d, p);
    }
    ReachesExactly(d, start, spc);
    exact := p.i0 == spc;
  }

  lemma EntryIsBoundary(list: seq<Part>, d: Decoder, start: Place, i0Offset: nat, e: Part)
    requires Indexed(list, d, start) && Nearest(list, i0Offset, e)
    ensures Boundary(d, start, Place(start.i0 + e.i0Offset, start.native + e.nativeOffset)) && e.i0Offset <= i0Offset
  {
    if e == Part(0, 0) {
      assert After(d, start, 0) == start;
    } else {
      var i :| 0 <= i < |list| && list[i] == e;
    }
  }
}
