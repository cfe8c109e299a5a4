/** The operations of src/NativeCodeBlock.c on linked blocks, carried out against the steps of `LinkGraph`. */
module TransCache {
  import opened Blocks
  import opened BlockList
  import opened BlockIndex
  import opened LinkGraph
  import opened LinkFacts
  import opened RefSets
  import opened RefTables
  import opened Seals
  import opened Words
  import PartitionIndex

  /** The stack of the walk through a reference set has room for fewer than this many members. */
  const MAX_BLOCKS: nat := 0x1_0000_0000

  /** The first entry, after the header, that is not below `spc`. */
  method FindFirstRelocEntryBySpc(relocs: seq<Reloc>, spc: nat) returns (p: nat)
    requires Ordered(relocs)
    ensures if relocs == [] then p == 0 else 1 <= p <= |relocs|
    ensures forall i :: 1 <= i < p ==> relocs[i].i0Addr < spc
    ensures forall i :: 1 <= p <= i < |relocs| ==> spc <= relocs[i].i0Addr
  {
    if relocs == [] {
      return 0;
    }
    var size, i := |relocs| - 1, 0;
    while size > 0
      invariant 0 <= size && 0 <= i && i + size <= |relocs| - 1
      invariant forall k :: 1 <= k <= i ==> relocs[k].i0Addr < spc
      invariant forall k :: 1 + i + size <= k < |relocs| ==> spc <= relocs[k].i0Addr
      decreases size
    {
      var value := relocs[1 + i + size / 2].i0Addr;
      if value < spc {
        i := i + size / 2 + 1;
        size := (size - 1) / 2;
      } else {
        size := size / 2;
      }
    }
    p := i + 1;
  }

  /** Past the unpatched relocations. */
  method SkipUnpatched(c: Code, i0: nat, ghost left: set<BlockDesc>) returns (i: nat)
    requires |c.relocs| == |c.points| && 1 <= i0 <= |c.relocs| && Behind(c, i0, left)
    ensures i0 <= i <= |c.relocs| && (i < |c.relocs| ==> c.points[i].jmp) && Behind(c, i, left)
  {
    i := i0;
    while i < |c.relocs| && !c.points[i].jmp
      invariant i0 <= i <= |c.relocs| && Behind(c, i, left)
    {
      i := i + 1;
    }
  }

  /** Past the relocations into `targetBlock`. */
  method SkipTarget(c: Code, i0: nat, targetBlock: BlockDesc, ghost left: set<BlockDesc>) returns (i: nat)
    requires |c.relocs| == |c.points| && Ordered(c.relocs) && 1 <= i0 < |c.relocs| && Jumps(c, i0, targetBlock)
      && Behind(c, i0, left)
    ensures i0 < i <= |c.relocs| && Behind(c, i, left + {targetBlock})
  {
    i := i0;
    while i < |c.relocs| && c.relocs[i].i0Addr < targetBlock.End()
      invariant i0 <= i <= |c.relocs|
      invariant forall k :: i0 <= k < i ==> In(targetBlock, c.relocs[k].i0Addr)
    {
      i := i + 1;
    }
    forall k | 1 <= k < i && c.points[k].jmp ensures exists t :: t in left + {targetBlock} && Jumps(c, k, t) {
      if k >= i0 {
        assert Jumps(c, k, targetBlock);
      } else {
        var t: BlockDesc :| t in left && Jumps(c, k, t);
        assert t in left + {targetBlock};
      }
    }
  }

  /** Where a lookup leads: native code of a block, nothing but a place for a new block, or the failing assertion. */
  datatype Way =
    | Existing(native: nat, block: BlockDesc)
    | Missing(fromBlock: BlockDesc?, pre: BlockDesc?, next: BlockDesc?, expand: bool)
    | AssertionFails

  /** Relocation `i` of `a` is for `spc`. */
  ghost predicate IsFor(g: Graph, a: BlockDesc, i: nat, spc: nat) {
    Even(g.code) && a in g.code && 1 <= i < |g.code[a].relocs| && g.code[a].relocs[i].i0Addr == spc
  }

  ghost predicate Unheld(g: Graph, spc: nat) { forall b :: b in g.code ==> !In(b, spc) }

  /** If an instruction of a block starts at `spc`, that is where the lookup leads, and relocation `i` of `a` is linked
      to it; linking a block to itself fails. A block that holds `spc` otherwise is deleted. */
  ghost predicate LookedUp(d: PartitionIndex.Decoder, g: Graph, spc: nat, a: BlockDesc?, i: nat, h: Graph, way: Way)
    requires PartitionIndex.Moves(d) && Even(g.code) && (a != null ==> IsFor(g, a, i, spc))
  {
    match way
    case Existing(native, b) =>
      && b in g.code && In(b, spc) && Starts(d, b, g.code[b], spc) && b != a
      && native == Stepped(d, b, g.code[b], spc) && g.code[b].Covers(native)
      && h == (if a == null then g else Patched(g, a, i, b, native))
    case AssertionFails => a != null && In(a, spc) && Starts(d, a, g.code[a], spc) && h == g
    case Missing(from, pre, next, expand) =>
      if Unheld(g, spc)
      then h == g && (expand <==> pre != null && spc == pre.End()) && from == if expand && a == pre then null else a
      else !expand && exists b ::
        && b in g.code && Misses(d, g, b, spc) && h == Deleted(g, b)
        && from == if a == b then null else a
  }

  /** `spc` lies in the block, but no instruction of it starts there. */
  ghost predicate Misses(d: PartitionIndex.Decoder, g: Graph, b: BlockDesc, spc: nat)
    requires b in g.code
  {
    In(b, spc) && !Starts(d, b, g.code[b], spc)
  }

  lemma MissedLooked(d: PartitionIndex.Decoder, g: Graph, b: BlockDesc, spc: nat, a: BlockDesc?, i: nat,
      pre: BlockDesc?, next: BlockDesc?)
    requires PartitionIndex.Moves(d) && Even(g.code) && (a != null ==> IsFor(g, a, i, spc))
    requires b in g.code && Misses(d, g, b, spc)
    ensures LookedUp(d, g, spc, a, i, Deleted(g, b), Missing(if a == b then null else a, pre, next, false))
  {
  }

  class Cache {
    const index: Index
    const refs: RefTable
    const decoder: PartitionIndex.Decoder
    var g: Graph

    /** What is in memory, if it is well formed and the index shares nothing with the reference sets. */
    ghost function Memory(): Option<View>
      reads index, index.repr, refs, refs.repr
    {
      if index.Shows().Some? && refs.Shows().Some? && index.repr !! refs.repr && this !in index.repr + refs.repr
      then Some(View(index.Shows().value, refs.Shows().value))
      else None
    }

    /** The blocks in order. */
    ghost function List(): seq<BlockDesc>
      requires Memory().Some?
      reads index, index.repr, refs, refs.repr
    {
      Memory().value.index.list
    }

    /** The reference sets are those of `m`. */
    ghost predicate Mirrored(m: Codes)
      reads index, index.repr, refs, refs.repr
    {
      Memory().Some? && Fits(Memory().value, m)
    }

    ghost predicate Valid()
      reads this, index, index.repr, refs, refs.repr
    {
      Mirrored(g.code) && Inv(g) && PartitionIndex.Moves(decoder) && Mapped(decoder, g.code)
    }

    constructor (d: PartitionIndex.Decoder)
      requires PartitionIndex.Moves(d)
      ensures Valid() && decoder == d && g == Graph(map[], map[]) && fresh(index.repr) && fresh(refs.repr)
    {
      index := new Index();
      refs := new RefTable();
      decoder := d;
      g := Graph(map[], map[]);
      new;
      EmptyFacts(d);
      OpenFits(Memory().value, map[]);
    }

    /** The jumps of `block` into `toDelete` become calls of their stubs again. */
    method ResolveExternalDeleting(block: BlockDesc, toDelete: BlockDesc)
      requires block in g.code && toDelete in g.code && Ordered(g.code[block].relocs)
      requires IntoOk(g.code[block], toDelete, g.code[toDelete])
      modifies this`g
      ensures g == old(g).(code := old(g.code)[block := Unpatched(old(g.code)[block], toDelete)])
    {
      var c, target := g.code[block], g.code[toDelete];
      ghost var done := Unpatched(c, toDelete).points;
      var points := c.points;
      var pos := FindFirstRelocEntryBySpc(c.relocs, toDelete.sourceBase);
      while pos < |c.relocs|
        invariant |points| == |c.points| && (c.relocs != [] ==> 1 <= pos <= |c.relocs|)
        invariant g == old(g).(code := old(g.code)[block := c.(points := points)])
        invariant forall i :: 0 <= i < pos < |points| ==> points[i] == done[i]
        invariant forall i :: pos <= i < |points| ==> points[i] == c.points[i]
        invariant forall i :: pos <= i < |points| ==> toDelete.sourceBase <= c.relocs[i].i0Addr
        invariant pos < |points| || points == done
      {
        if c.relocs[pos].i0Addr < toDelete.End() {
          if points[pos].jmp {
            assert target.Covers(points[pos].target);
            points := points[pos := Point(false, c.Stub(pos))];
            g := g.(code := g.code[block := c.(points := points)]);
          } else {
            assert points[pos].target == c.Stub(pos);
          }
        } else {
          break;
        }
        pos := pos + 1;
      }
      assert points == done;
    }

    /** The jumps of `block` into `toRebase` follow it to `newbase`. */
    method ResolveExternalRebasing(block: BlockDesc, toRebase: BlockDesc, newbase: nat)
      requires block in g.code && toRebase in g.code && Ordered(g.code[block].relocs)
      requires IntoOk(g.code[block], toRebase, g.code[toRebase])
      modifies this`g
      ensures var off := Distance(old(g.code)[toRebase].native, newbase);
        g == old(g).(code := old(g.code)[block := Shifted(old(g.code)[block], toRebase, off)])
    {
      var c, target := g.code[block], g.code[toRebase];
      var off64 := Distance(target.native, newbase);
      ghost var done := Shifted(c, toRebase, off64).points;
      var points := c.points;
      var pos := FindFirstRelocEntryBySpc(c.relocs, toRebase.sourceBase);
      while pos < |c.relocs|
        invariant |points| == |c.points| && (c.relocs != [] ==> 1 <= pos <= |c.relocs|)
        invariant g == old(g).(code := old(g.code)[block := c.(points := points)])
        invariant forall i :: 0 <= i < pos < |points| ==> points[i] == done[i]
        invariant forall i :: pos <= i < |points| ==> points[i] == c.points[i]
        invariant forall i :: pos <= i < |points| ==> toRebase.sourceBase <= c.relocs[i].i0Addr
        invariant pos < |points| || points == done
      {
        if c.relocs[pos].i0Addr < toRebase.End() {
          if points[pos].jmp {
            assert target.Covers(points[pos].target);
            points := points[pos := Point(true, Moved(points[pos].target, off64))];
            g := g.(code := g.code[block := c.(points := points)]);
          } else {
            assert points[pos].target == c.Stub(pos);
          }
        } else {
          break;
        }
        pos := pos + 1;
      }
      assert points == done;
    }

    /** Each block that refers to `toDelete` is visited once, in the order of the walk through its reference set. */
    method TraverRefBlockPrepDel(toDelete: BlockDesc)
      requires Inv(g) && toDelete in g.code && Mirrored(g.code) && |g.code| < MAX_BLOCKS
      modifies this`g
      ensures g == old(g).(code := UnpatchedAll(old(g.code), toDelete))
    {
      ghost var g0, m := g, g.code;
      var order := Referring(toDelete);
      var k := 0;
      assert g.code == UnpatchedBy(m, toDelete, order[..k]);
      while k < |order|
        invariant 0 <= k <= |order| && g == old(g).(code := UnpatchedBy(m, toDelete, order[..k]))
      {
        UnpatchedNext(g0, m, toDelete, order, k);
        ResolveExternalDeleting(order[k], toDelete);
        k := k + 1;
      }
      assert order[..k] == order;
      UnpatchedEnough(g0, m, toDelete, order);
    }

    /** Each block that refers to `toRebase` is visited once, in the order of the walk through its reference set. */
    method TraverRefBlockRebase(toRebase: BlockDesc, newbase: nat)
      requires Inv(g) && toRebase in g.code && Mirrored(g.code) && |g.code| < MAX_BLOCKS
      modifies this`g
      ensures g == old(g).(code := ShiftedAll(old(g.code), toRebase, Distance(old(g.code)[toRebase].native, newbase)))
    {
      ghost var g0, m := g, g.code;
      ghost var off := Distance(m[toRebase].native, newbase);
      var order := Referring(toRebase);
      var k := 0;
      assert g.code == ShiftedBy(m, toRebase, off, order[..k]);
      while k < |order|
        invariant 0 <= k <= |order| && g == old(g).(code := ShiftedBy(m, toRebase, off, order[..k]))
      {
        ShiftedNext(g0, m, toRebase, off, order, k);
        ResolveExternalRebasing(order[k], toRebase, newbase);
        k := k + 1;
      }
      assert order[..k] == order;
      ShiftedEnough(g0, m, toRebase, off, order);
    }

    /** The blocks that refer to `block`, as the walk through the tree of its reference set meets them. */
    method Referring(block: BlockDesc) returns (order: seq<BlockDesc>)
      requires Inv(g) && block in g.code && Mirrored(g.code) && |g.code| < MAX_BLOCKS
      ensures EachOnce(order, g.code[block].refs)
    {
      OpenInv(g);
      OpenFits(Memory().value, g.code);
      Smaller(g.code[block].refs, g.code.Keys);
      order := refs.Order(block, Memory().value.refs);
    }

    /** The table entries of `desc` follow it by `offset64`. */
    method RebaseEntries(desc: BlockDesc, offset64: nat)
      requires desc in g.code && Distinct(g.code[desc].hashed) && Listed(g, desc)
      modifies this`g
      ensures g.code == old(g.code) && g.table == MovedEntries(old(g), desc, offset64)
    {
      var hashed := g.code[desc].hashed;
      ghost var table := g.table;
      var i := 0;
      while i < |hashed|
        invariant 0 <= i <= |hashed| && g.code == old(g.code) && g.table.Keys == table.Keys
        invariant forall e :: e in table ==>
          g.table[e] == if e in hashed[..i] then table[e].(tpc := Moved(table[e].tpc, offset64)) else table[e]
      {
        var tabent := hashed[i];
        g := g.(table := g.table[tabent := g.table[tabent].(tpc := Moved(g.table[tabent].tpc, offset64))]);
        assert hashed[..i + 1] == hashed[..i] + [tabent];
        i := i + 1;
      }
      assert hashed[..i] == hashed;
    }

    /** `RebaseNativeCodeBlock`, and its caller's assignment of `NativeCode`. */
    method MoveCode(desc: BlockDesc, newbase: nat)
      requires Inv(g) && desc in g.code && newbase + g.code[desc].nativeSize <= WORD && Mirrored(g.code)
        && |g.code| < MAX_BLOCKS
      modifies this`g
      ensures g == Rebased(old(g), desc, newbase) && Inv(g)
    {
      var offset64 := Distance(g.code[desc].native, newbase);
      ListedEntries(g, desc);
      RebasedInv(g, desc, newbase);
      if offset64 != 0 {
        TraverRefBlockRebase(desc, newbase);
        RebasedInSteps(old(g), g, desc, newbase);
        RebaseEntries(desc, offset64);
      } else {
        RebaseNothing(g, desc, newbase);
      }
      g := g.(code := g.code[desc := g.code[desc].(native := newbase)]);
    }

    method RebaseNativeCodeBlock(desc: BlockDesc, newbase: nat)
      requires Valid() && desc in g.code && newbase + g.code[desc].nativeSize <= WORD && |g.code| < MAX_BLOCKS
      modifies this`g
      ensures Valid() && g == Rebased(old(g), desc, newbase)
    {
      ghost var v, m := Memory().value, g.code;
      RebasedKept(decoder, g, desc, newbase);
      Move(desc, newbase, v);
      FitsSame(v, m, g.code);
    }

    /** The rebase, as the memory sees it. */
    method Move(desc: BlockDesc, newbase: nat, ghost v: View)
      requires Memory() == Some(v) && Fits(v, g.code) && Inv(g) && desc in g.code
        && newbase + g.code[desc].nativeSize <= WORD && |g.code| < MAX_BLOCKS
      modifies this`g
      ensures Memory() == Some(v) && g == Rebased(old(g), desc, newbase) && Inv(g)
    {
      MoveCode(desc, newbase);
    }

    // --- Deletion ---

    /** One reference set loses a member. `found` is false where the C code reaches `assert(0)`. */
    method DropReference(refToDelete: BlockDesc, block: BlockDesc, ghost v: View) returns (found: bool)
      requires Memory() == Some(v) && block in v.refs.contents && OwnBase(refToDelete, v.refs.contents[block])
      modifies refs, v.refs.repr
      ensures Memory() == Some(v.With(v.refs.contents[block := v.refs.contents[block] - {refToDelete}]))
      ensures found <==> refToDelete in v.refs.contents[block]
    {
      found := refs.Delete(refToDelete, block, v.refs);
    }

    method Assign(h: Graph, ghost v: View)
      requires Memory() == Some(v)
      modifies this`g
      ensures g == h && Memory() == Some(v)
    {
      g := h;
    }

    /** `block` no longer refers back to `refToDelete`. It did, so the assertion that fails is not reached. */
    method DeleteFromRefSet(refToDelete: BlockDesc, block: BlockDesc, ghost v: View)
      requires Memory() == Some(v) && block in g.code && refToDelete in g.code[block].refs
        && OwnBase(refToDelete, g.code[block].refs)
      requires v.refs.contents == RefsOf(g.code)
      modifies this`g, refs, v.refs.repr
      ensures g == Forgotten(old(g), block, refToDelete) && Memory() == Some(v.With(RefsOf(g.code)))
    {
      var h := Forgotten(g, block, refToDelete);
      RefsPut(g.code, block, h.code[block]);
      var found := DropReference(refToDelete, block, v);
      assert found;
      Assign(h, v.With(RefsOf(h.code)));
    }

    /** The block that patched relocation `i` of `block` leads into. */
    method TargetOf(block: BlockDesc, i: nat, i0Addr: nat, ghost m: Codes, ghost v: View)
        returns (targetBlock: BlockDesc)
      requires Memory() == Some(v) && Members(v.index.list) == m.Keys && CutOffFrom(m, block)
        && 1 <= i < |m[block].relocs|
      requires m[block].points[i].jmp && i0Addr == m[block].relocs[i].i0Addr
      ensures targetBlock in m && targetBlock != block && Jumps(m[block], i, targetBlock)
      ensures IntoOk(m[block], targetBlock, m[targetBlock]) && Memory() == Some(v)
    {
      OpenCutOff(m, block);
      var r := index.Find(i0Addr, v.index);
      TargetFacts(m, v.index.list, block, i, r);
      targetBlock := r;
    }

    /** One round of `DeleteNativeCodeBlock`: the target of relocation `i`, not met before, forgets `block`. */
    method LeaveRound(block: BlockDesc, c: Code, i: nat, ghost m: Codes, ghost left: set<BlockDesc>, ghost v: View)
        returns (j: nat, ghost left': set<BlockDesc>)
      requires Memory() == Some(v.With(RefsOf(g.code))) && Members(v.index.list) == m.Keys && CutOffFrom(m, block)
        && c == m[block]
      requires 1 <= i < |c.relocs| && c.points[i].jmp && Ordered(c.relocs) && g.code == LeftBy(m, block, left)
        && Behind(c, i, left)
      modifies this`g, refs, v.refs.repr
      ensures Memory() == Some(v.With(RefsOf(g.code))) && g.table == old(g).table && g.code == LeftBy(m, block, left')
      ensures i < j <= |c.relocs| && Behind(c, j, left') && (left <= m.Keys ==> left' <= m.Keys)
    {
      ghost var w := v.With(RefsOf(g.code));
      var targetBlock := TargetOf(block, i, c.relocs[i].i0Addr, m, w);
      j := SkipTarget(c, i, targetBlock, left);
      left' := left + {targetBlock};
      LeaveFacts(g, m, block, i, targetBlock, left);
      DeleteFromRefSet(block, targetBlock, w);
    }

    /** The unpatched relocations from `i` on are passed, then the target of the next one, if there is one, forgets
        `block`. */
    method LeaveNext(block: BlockDesc, c: Code, i: nat, ghost m: Codes, ghost left: set<BlockDesc>, ghost v: View)
        returns (j: nat, ghost left': set<BlockDesc>)
      requires Memory() == Some(v.With(RefsOf(g.code))) && Members(v.index.list) == m.Keys && CutOffFrom(m, block)
        && c == m[block]
      requires 1 <= i < |c.relocs| && Ordered(c.relocs) && Leaving(g.code, m, block, i, left)
      modifies this`g, refs, v.refs.repr
      ensures Memory() == Some(v.With(RefsOf(g.code))) && g.table == old(g).table
      ensures i < j <= |c.relocs| && Leaving(g.code, m, block, j, left')
    {
      j := SkipUnpatched(c, i, left);
      left' := left;
      if j < |c.relocs| {
        j, left' := LeaveRound(block, c, j, m, left, v);
      }
    }

    /** The loops of `DeleteNativeCodeBlock`: the blocks that `block` jumps into forget it, each once. */
    method LeaveTargets(block: BlockDesc, ghost v: View)
      requires Memory() == Some(v) && Fits(v, g.code) && CutOffFrom(g.code, block)
      modifies this`g, refs, v.refs.repr
      ensures Memory() == Some(v.With(RefsOf(g.code)))
      ensures g.table == old(g).table && g.code == LeftBy(old(g).code, block, old(g).code.Keys)
    {
      ghost var m := g.code;
      var c := g.code[block];
      StartLeaving(m, block);
      OpenFits(v, m);
      var i := 1;
      ghost var left: set<BlockDesc> := {};
      while i < |c.relocs|
        invariant Memory() == Some(v.With(RefsOf(g.code)))
        invariant 1 <= i <= |c.relocs| && g.table == old(g.table) && Leaving(g.code, m, block, i, left)
        decreases |c.relocs| - i
      {
        i, left := LeaveNext(block, c, i, m, left, v);
      }
      LeftAll(m, block, left);
    }

    /** The table entries of `block` go: the first of a chain is cleared, another is unchained. */
    method DropEntries(block: BlockDesc)
      requires block in g.code
      modifies this`g
      ensures g == old(g).(table := old(g).table - set e | e in old(g).code[block].hashed)
    {
      var hashed := g.code[block].hashed;
      var i := 0;
      while i < |hashed|
        invariant 0 <= i <= |hashed| && g == old(g).(table := old(g).table - set e | e in hashed[..i])
      {
        assert hashed[..i + 1] == hashed[..i] + [hashed[i]];
        g := g.(table := g.table - {hashed[i]});
        i := i + 1;
      }
      assert hashed[..i] == hashed;
    }

    /** No jump and no table entry leads to `block` any more. */
    method CutOff(block: BlockDesc, ghost v: View)
      requires Memory() == Some(v) && Fits(v, g.code) && Inv(g) && block in g.code && |g.code| < MAX_BLOCKS
      modifies this`g
      ensures Memory() == Some(v) && Fits(v, g.code) && CutOffFrom(g.code, block)
      ensures g == Graph(UnpatchedAll(old(g.code), block), old(g).table - set e | e in old(g).code[block].hashed)
    {
      CutOffFacts(v, g, block);
      Unpatch(block, v);
      DropEntries(block);
    }

    /** The walk, as the memory sees it. */
    method Unpatch(block: BlockDesc, ghost v: View)
      requires Memory() == Some(v) && Fits(v, g.code) && Inv(g) && block in g.code && |g.code| < MAX_BLOCKS
      modifies this`g
      ensures Memory() == Some(v) && g == old(g).(code := UnpatchedAll(old(g.code), block))
    {
      TraverRefBlockPrepDel(block);
    }

    /** The block and its reference set go. */
    method DropBlock(block: BlockDesc, ghost v: View)
      requires Memory() == Some(v) && v.refs.contents == RefsOf(g.code) && block in g.code
      modifies this`g, refs, v.refs.repr
      ensures Memory() == Some(v.With(RefsOf(old(g).code) - {block})) && g == old(g).(code := old(g).code - {block})
    {
      Forget(block, v);
      Assign(g.(code := g.code - {block}), v.With(RefsOf(g.code) - {block}));
    }

    /** The reference set of `block` goes. */
    method Forget(block: BlockDesc, ghost v: View)
      requires Memory() == Some(v) && block in v.refs.contents
      modifies refs
      ensures Memory() == Some(v.With(v.refs.contents - {block}))
    {
      refs.Remove(block, v.refs);
    }

    /** What `DeleteNativeCodeBlock` does to the other blocks. */
    method Disconnect(block: BlockDesc, ghost v: View)
      requires Memory() == Some(v) && Fits(v, g.code) && Inv(g) && Mapped(decoder, g.code) && block in g.code
        && |g.code| < MAX_BLOCKS
      modifies this`g, refs, v.refs.repr
      ensures g == Deleted(old(g), block) && Memory() == Some(v.With(RefsOf(g.code))) && Mapped(decoder, g.code)
    {
      ghost var g0 := g;
      CutOff(block, v);
      ghost var g1 := g;
      LeaveTargets(block, v);
      DeletedFacts(decoder, g0, g1, g, block);
      DropBlock(block, v.With(RefsOf(g.code)));
    }

    /** The end of `DeleteNativeCodeBlock`. */
    method Unindex(block: BlockDesc, ghost v: View) returns (ghost w: View)
      requires Memory() == Some(v) && block in Members(v.index.list)
      modifies index, v.index.repr
      ensures Memory() == Some(w) && w.refs == v.refs && w.index.repr == v.index.repr && NoRepeats(v.index.list)
      ensures (exists k :: Put(w.index.list, v.index.list, k, block))
        && Members(w.index.list) == Members(v.index.list) - {block}
    {
      ghost var i := index.Remove(block, v.index);
      w := View(i, v.refs);
    }

    method Delete(block: BlockDesc, ghost v: View) returns (ghost w: View)
      requires Memory() == Some(v) && Fits(v, g.code) && Inv(g) && Mapped(decoder, g.code) && block in g.code
        && |g.code| < MAX_BLOCKS
      modifies this`g, index, v.index.repr, refs, v.refs.repr
      ensures g == Deleted(old(g), block) && Memory() == Some(w) && Fits(w, g.code) && Mapped(decoder, g.code)
      ensures NoRepeats(v.index.list) && (exists k :: Put(w.index.list, v.index.list, k, block))
      ensures w.index.repr == v.index.repr && w.refs.repr == v.refs.repr
    {
      ghost var g0 := g;
      FitsMember(v, g.code, block);
      Disconnect(block, v);
      w := Unindex(block, v.With(RefsOf(g.code)));
      FitsDeleted(v, w, g0, block);
    }

    method DeleteNativeCodeBlock(block: BlockDesc)
      requires Valid() && block in g.code && |g.code| < MAX_BLOCKS
      modifies this`g, index, index.repr, refs, refs.repr
      ensures Valid() && g == Deleted(old(g), block) && exists k :: Put(List(), old(List()), k, block)
      ensures index.repr == old(index.repr) && refs.repr == old(refs.repr)
    {
      DeletedInv(g, block);
      ghost var v := Memory().value;
      ghost var w := Delete(block, v);
      ghost var k :| Put(w.index.list, v.index.list, k, block);
      assert Put(List(), old(List()), k, block);
    }

    // --- Linking ---

    /** `block` refers back to `refToAdd`, if it did not yet. */
    method AddToRefSet(refToAdd: BlockDesc, block: BlockDesc, ghost v: View) returns (ghost w: View)
      requires Memory() == Some(v) && v.refs.contents == RefsOf(g.code) && block in g.code
        && OwnBase(refToAdd, g.code[block].refs)
      modifies this`g, refs, v.refs.repr
      ensures g == Remembered(old(g), block, refToAdd)
      ensures Memory() == Some(w) && w.index == v.index && w.refs.contents == RefsOf(g.code)
        && fresh(w.refs.repr - v.refs.repr)
    {
      var h := Remembered(g, block, refToAdd);
      RefsPut(g.code, block, h.code[block]);
      w := AddReference(refToAdd, block, v);
      Assign(h, w);
    }

    method AddReference(refToAdd: BlockDesc, block: BlockDesc, ghost v: View) returns (ghost w: View)
      requires Memory() == Some(v) && block in v.refs.contents && OwnBase(refToAdd, v.refs.contents[block])
      modifies refs, v.refs.repr
      ensures Memory() == Some(w) && w.index == v.index && fresh(w.refs.repr - v.refs.repr)
      ensures w.refs.contents == v.refs.contents[block := v.refs.contents[block] + {refToAdd}]
    {
      ghost var t := refs.Add(refToAdd, block, v.refs);
      w := View(v.index, t);
    }

    /** Relocation `i` is patched to jump to `address`. */
    method PatchPoint(block: BlockDesc, i: nat, address: nat, ghost v: View)
      requires Memory() == Some(v) && block in g.code && i < |g.code[block].points|
      modifies this`g
      ensures Memory() == Some(v) && g == WithJump(old(g), block, i, address)
    {
      Assign(WithJump(g, block, i, address), v);
    }

    /** The lookup of `Translate` found `preblock`: relocation `i` of `fromBlock` is patched to go there. */
    method LinkTo(fromBlock: BlockDesc, i: nat, preblock: BlockDesc, nativeAddr: nat)
      requires Valid() && fromBlock in g.code && preblock in g.code && fromBlock != preblock
        && 1 <= i < |g.code[fromBlock].relocs|
      requires g.code[preblock].Covers(nativeAddr) && In(preblock, g.code[fromBlock].relocs[i].i0Addr)
      modifies this`g, refs, refs.repr
      ensures Valid() && g == Patched(old(g), fromBlock, i, preblock, nativeAddr) && List() == old(List())
      ensures index.repr == old(index.repr) && fresh(refs.repr - old(refs.repr))
    {
      ghost var v, g0 := Memory().value, g;
      PatchedInv(g, fromBlock, i, preblock, nativeAddr);
      PatchedFacts(decoder, v, g, fromBlock, i, preblock, nativeAddr);
      PatchPoint(fromBlock, i, nativeAddr, v);
      ghost var w := AddToRefSet(fromBlock, preblock, v);
      FitsPatched(v, w, g0, fromBlock, i, preblock, nativeAddr);
    }

    // --- Insertion ---

    /** The new block is in none of the structures. */
    ghost predicate Unused(newblock: BlockDesc)
      reads newblock, index, refs
    {
      && newblock.preBlock == null && newblock.nxtBlock == null && newblock.rbNode != null
      && newblock.rbNode.entry == newblock
      && newblock !in index.repr && newblock.rbNode !in index.repr && newblock !in refs.repr
      && newblock.rbNode !in refs.repr
    }

    method IndexNew(newblock: BlockDesc, ghost v: View) returns (ok: bool, ghost w: View)
      requires Memory() == Some(v) && Unused(newblock)
      modifies index, v.index.repr, newblock.rbNode, newblock`preBlock, newblock`nxtBlock
      ensures Memory() == Some(w) && w.refs == v.refs && w.index.repr == v.index.repr + {newblock, newblock.rbNode}
      ensures Ascending(v.index.list) && NoRepeats(v.index.list) && Ascending(w.index.list)
        && newblock !in Members(v.index.list)
      ensures exists k :: Put(v.index.list, w.index.list, k, newblock)
      ensures Members(w.index.list) == Members(v.index.list) + {newblock}
      ensures Disjoint(v.index.list) ==> (ok <==> Disjoint(w.index.list))
    {
      index.Inside(v.index);
      ghost var i;
      ok, i := index.Insert(newblock, v.index);
      w := View(i, v.refs);
    }

    /** The index decides whether the new block overlaps another. */
    method CheckNew(newblock: BlockDesc, ghost v: View) returns (ok: bool, ghost w: View)
      requires Memory() == Some(v) && Fits(v, g.code) && Inv(g) && Unused(newblock) && newblock.sourceSize > 0
      modifies index, v.index.repr, newblock.rbNode, newblock`preBlock, newblock`nxtBlock
      ensures Memory() == Some(w) && w.refs == v.refs && w.index.repr == v.index.repr + {newblock, newblock.rbNode}
      ensures Members(w.index.list) == Members(v.index.list) + {newblock}
      ensures newblock !in g.code && newblock !in v.refs.contents
      ensures ok <==> forall a :: a in g.code ==> Apart(a, newblock)
    {
      ok, w := IndexNew(newblock, v);
      EnterFacts(v, w.index, g, newblock, ok);
    }

    method RefsNew(newblock: BlockDesc, ghost v: View) returns (ghost w: View)
      requires Memory() == Some(v) && newblock !in v.refs.contents
      modifies refs
      ensures Memory() == Some(w) && w.index == v.index && w.refs.contents == v.refs.contents[newblock := {}]
      ensures fresh(w.refs.repr - v.refs.repr)
    {
      ghost var t := refs.New(newblock, v.refs);
      w := View(v.index, t);
    }

    method Enter(newblock: BlockDesc, c: Code, ghost v: View) returns (ok: bool, ghost w: View)
      requires Memory() == Some(v) && Fits(v, g.code) && Inv(g) && Unused(newblock) && newblock.sourceSize > 0
        && c.refs == {}
      modifies this`g, index, v.index.repr, refs, newblock.rbNode, newblock`preBlock, newblock`nxtBlock
      ensures newblock !in old(g).code && g == old(g).(code := old(g).code[newblock := c])
      ensures ok <==> forall a :: a in old(g).code ==> Apart(a, newblock)
      ensures Memory() == Some(w) && Fits(w, g.code)
      ensures w.index.repr == v.index.repr + {newblock, newblock.rbNode} && fresh(w.refs.repr - v.refs.repr)
    {
      ok, w := CheckNew(newblock, v);
      w := RefsNew(newblock, w);
      FitsEntered(v, w, g.code, newblock, c);
      Assign(g.(code := g.code[newblock := c]), w);
    }

    /** `InsertNativeCodeBlock` for a translated block. Its assertions hold exactly when the block overlaps no other. */
    method Add(newblock: BlockDesc, c: Code) returns (ok: bool)
      requires Valid() && Unused(newblock) && newblock.sourceSize > 0 && Fresh(newblock, c)
        && Partitioned(decoder, newblock, c)
      modifies this`g, index, index.repr, refs, newblock.rbNode, newblock`preBlock, newblock`nxtBlock
      ensures newblock !in old(g).code && g == old(g).(code := old(g).code[newblock := c])
      ensures ok <==> forall a :: a in old(g).code ==> Apart(a, newblock)
      ensures ok ==> Valid()
      ensures index.repr == old(index.repr) + {newblock, newblock.rbNode} && fresh(refs.repr - old(refs.repr))
    {
      ghost var w;
      ok, w := Enter(newblock, c, Memory().value);
      if ok {
        AddedInv(old(g), newblock, c);
        MappedMore(decoder, old(g).code, newblock, c);
      }
    }

    // --- The lookup path of `Translate` ---

    /** The block before the place of `spc` and the one after it. */
    method FindPlace(spc: nat, ghost v: View) returns (preblock: BlockDesc?, nxtblock: BlockDesc?, ghost k: nat)
      requires Memory() == Some(v) && Fits(v, g.code) && Inv(g)
      ensures Placed(g.code, v.index.list, spc, k) && preblock == Prior(v.index.list, k)
        && nxtblock == Later(v.index.list, k - 1)
    {
      index.Neighbours(v.index);
      ListFacts(v, g);
      preblock := index.Find(spc, v.index);
      k := TargetPlace(v.index.list, spc, preblock);
      nxtblock := if preblock != null then preblock.nxtBlock else index.first;
    }

    /** The native address of `spc` in a block that holds it, found through its partition list. */
    method FindInBlock(preblock: BlockDesc, spc: nat) returns (native: nat, exact: bool)
      requires PartitionIndex.Moves(decoder) && Mapped(decoder, g.code) && preblock in g.code && In(preblock, spc)
      ensures exact <==> Starts(decoder, preblock, g.code[preblock], spc)
      ensures exact ==> native == Stepped(decoder, preblock, g.code[preblock], spc) && g.code[preblock].Covers(native)
    {
      OpenMapped(decoder, g.code);
      assert Partitioned(decoder, preblock, g.code[preblock]);
      var p;
      p, exact := PartitionIndex.FindNative(g.code[preblock].parts, decoder, Start(preblock, g.code[preblock]), spc);
      StartsExactly(decoder, preblock, g.code[preblock], spc);
      native := p.native;
      if exact {
        ExactCovers(decoder, preblock, g.code[preblock], spc);
      }
    }

    /** No instruction of `preblock` starts at `spc`: the block is deleted, and a new one would go into its place. */
    method Kill(preblock: BlockDesc, spc: nat, ghost k: nat, ghost v: View) returns (pre: BlockDesc?)
      requires Valid() && Memory() == Some(v) && |g.code| < MAX_BLOCKS
      requires preblock in g.code && In(preblock, spc) && Placed(g.code, v.index.list, spc, k)
        && preblock == Prior(v.index.list, k)
      modifies this`g, index, index.repr, refs, refs.repr
      ensures Valid() && g == Deleted(old(g), preblock) && Gap(List(), spc, pre, Later(v.index.list, k - 1))
      ensures index.repr == old(index.repr) && refs.repr == old(refs.repr)
    {
      index.Neighbours(v.index);
      pre := preblock.preBlock;
      DeleteNativeCodeBlock(preblock);
      ghost var j :| Put(List(), v.index.list, j, preblock);
      GapWithout(v.index.list, List(), spc, k, j);
    }

    /** The lookup found `preblock`, which holds `spc`. */
    method Hit(preblock: BlockDesc, spc: nat, nxtblock: BlockDesc?, fromBlock: BlockDesc?, i: nat, ghost k: nat,
        ghost v: View)
        returns (way: Way)
      requires Valid() && Memory() == Some(v) && |g.code| < MAX_BLOCKS
        && (fromBlock != null ==> IsFor(g, fromBlock, i, spc))
      requires preblock in g.code && In(preblock, spc) && Placed(g.code, v.index.list, spc, k)
      requires preblock == Prior(v.index.list, k) && nxtblock == Later(v.index.list, k - 1)
      modifies this`g, index, index.repr, refs, refs.repr
      ensures Valid() && LookedUp(decoder, old(g), spc, fromBlock, i, g, way)
      ensures way.Missing? ==> Gap(List(), spc, way.pre, way.next)
      ensures index.repr == old(index.repr) && fresh(refs.repr - old(refs.repr))
    {
      var native, exact := FindInBlock(preblock, spc);
      if !exact {
        ghost var g0 := g;
        var pre := Kill(preblock, spc, k, v);
        way := Missing(if fromBlock == preblock then null else fromBlock, pre, nxtblock, false);
        MissedLooked(decoder, g0, preblock, spc, fromBlock, i, pre, nxtblock);
      } else {
        way := Follow(preblock, native, spc, fromBlock, i);
      }
    }

    /** An instruction of `preblock` starts at `spc`: the relocation is linked to it. */
    method Follow(preblock: BlockDesc, native: nat, spc: nat, fromBlock: BlockDesc?, i: nat) returns (way: Way)
      requires Valid() && (fromBlock != null ==> IsFor(g, fromBlock, i, spc)) && preblock in g.code && In(preblock, spc)
      requires Starts(decoder, preblock, g.code[preblock], spc) && g.code[preblock].Covers(native)
      requires native == Stepped(decoder, preblock, g.code[preblock], spc)
      modifies this`g, refs, refs.repr
      ensures Valid() && LookedUp(decoder, old(g), spc, fromBlock, i, g, way) && !way.Missing?
      ensures index.repr == old(index.repr) && fresh(refs.repr - old(refs.repr))
    {
      if fromBlock == preblock {
        way := AssertionFails;
      } else {
        if fromBlock != null {
          LinkTo(fromBlock, i, preblock, native);
        }
        way := Existing(native, preblock);
      }
    }

    /** The lookup of `Translate`, which comes from relocation `i` of `fromBlock` unless that is null. */
    method Lookup(spc: nat, fromBlock: BlockDesc?, i: nat) returns (way: Way)
      requires Valid() && |g.code| < MAX_BLOCKS && (fromBlock != null ==> IsFor(g, fromBlock, i, spc))
      modifies this`g, index, index.repr, refs, refs.repr
      ensures Valid() && LookedUp(decoder, old(g), spc, fromBlock, i, g, way)
      ensures way.Missing? ==> Gap(List(), spc, way.pre, way.next)
      ensures index.repr == old(index.repr) && fresh(refs.repr - old(refs.repr))
    {
      ghost var v := Memory().value;
      var preblock, nxtblock;
      ghost var k;
      preblock, nxtblock, k := FindPlace(spc, v);
      if preblock != null && spc < preblock.End() {
        way := Hit(preblock, spc, nxtblock, fromBlock, i, k, v);
      } else {
        GapBelow(v.index.list, spc, k);
        var expand := preblock != null && spc == preblock.End();
        way := Missing(if expand && fromBlock == preblock then null else fromBlock, preblock, nxtblock, expand);
      }
    }
  }
}
