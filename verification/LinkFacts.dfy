/** What the steps of `LinkGraph` mean for one block at a time, and for the index of the blocks. */
module LinkFacts {
  import opened Blocks
  import opened BlockList
  import opened BlockIndex
  import opened LinkGraph
  import PartitionIndex
  import opened RefSets
  import opened RefTables
  import opened Seals

  ghost predicate Ordered(relocs: seq<Reloc>) {
    forall i, j :: 1 <= i <= j < |relocs| ==> relocs[i].i0Addr <= relocs[j].i0Addr
  }

  /** The points of `c` that lead into `b` are sound. */
  ghost predicate IntoOk(c: Code, b: BlockDesc, d: Code) {
    && |c.relocs| == |c.points|
    && forall i :: 1 <= i < |c.relocs| && In(b, c.relocs[i].i0Addr) ==>
      if c.points[i].jmp then d.Covers(c.points[i].target) else c.points[i].target == c.Stub(i)
  }

  lemma IntoOkFor(m: Codes, a: BlockDesc, b: BlockDesc)
    requires PointsOk(m) && AllApart(m) && a in m && b in m
    ensures IntoOk(m[a], b, m[b])
  {
    forall i | 1 <= i < |m[a].relocs| && In(b, m[a].relocs[i].i0Addr)
      ensures if m[a].points[i].jmp then m[b].Covers(m[a].points[i].target) else m[a].points[i].target == m[a].Stub(i) {
      assert PointOk(m, a, i);
      if m[a].points[i].jmp {
        OneTarget(m, a, i, b);
      }
    }
  }

  lemma AscendingDisjoint(s: seq<BlockDesc>)
    requires Ascending(s) && forall i :: 0 <= i < |s| ==> s[i].sourceSize > 0
    requires forall i, j :: 0 <= i < j < |s| ==> Apart(s[i], s[j])
    ensures Disjoint(s)
  {
  }

  lemma ApartDisjoint(s: seq<BlockDesc>, m: Codes)
    requires Ascending(s) && NoRepeats(s) && Members(s) == m.Keys && AllApart(m) && AllLarge(m.Keys)
    ensures Disjoint(s)
  {
    forall i | 0 <= i < |s| ensures s[i] in m {
      MembersIn(s, s[i]);
    }
    AscendingDisjoint(s);
  }

  /** A new block fits between its neighbours exactly when it overlaps no block. */
  lemma ApartDecides(s: seq<BlockDesc>, s': seq<BlockDesc>, k: nat, b: BlockDesc, m: Codes)
    requires Put(s, s', k, b) && Disjoint(s) && Ascending(s')
    requires Members(s) == m.Keys && AllLarge(m.Keys) && b.sourceSize > 0
    ensures Disjoint(s') <==> forall a :: a in m ==> Apart(a, b)
  {
    forall i | 0 <= i < |s| ensures s[i] in m && s[i].sourceSize > 0 {
      MembersIn(s, s[i]);
    }
    NeighboursDecide(s, s', k, b);
    assert k > 0 ==> s'[k - 1] == s[k - 1];
    assert k < |s| ==> s'[k + 1] == s[k];
    if Disjoint(s') {
      forall a | a in m ensures Apart(a, b) {
        MembersIn(s, a);
        var i :| 0 <= i < |s| && s[i] == a;
        assert s'[if i < k then i else i + 1] == a && s'[k] == b;
      }
    } else {
      var a := if k > 0 && s[k - 1].End() > b.sourceBase then s[k - 1] else s[k];
      assert a in m && !Apart(a, b);
    }
  }

  /** `block` neither jumps to itself nor does anyone else jump to it. */
  lemma UnpatchedReady(m: Codes, block: BlockDesc)
    requires PointsOk(m) && RefsOk(m) && AllApart(m) && block in m
    ensures var m' := UnpatchedAll(m, block);
      PointsOk(m') && m'[block] == m[block] && RefersBack(m', block)
  {
    var m' := UnpatchedAll(m, block);
    forall a, i | a in m && 1 <= i < |m[a].relocs| ensures PointOk(m', a, i) {
      assert PointOk(m, a, i);
      if m[a].points[i].jmp && !Jumps(m[a], i, block) {
        var t: BlockDesc :| t in m && t != a && Leads(m[a], i, t, m[t]);
        assert Leads(m'[a], i, t, m'[t]);
      }
    }
    if Reaches(m[block], block) {
      var i :| 1 <= i < |m[block].relocs| && Jumps(m[block], i, block);
      OneTarget(m, block, i, block);
    }
    NothingToUnpatch(m[block], block);
  }

  lemma DeletedCode(g: Graph, b: BlockDesc)
    requires Even(g.code) && b in g.code
    ensures LeftBy(UnpatchedAll(g.code, b), b, g.code.Keys) - {b} == Deleted(g, b).code
  {
  }

  ghost predicate AllLarge(blocks: set<BlockDesc>) {
    forall b {:trigger b.sourceSize} :: b in blocks ==> b.sourceSize > 0
  }

  lemma OrderedRelocs(m: Codes, b: BlockDesc)
    requires AllShaped(m) && b in m
    ensures Ordered(m[b].relocs)
  {
    assert m[b].Shaped();
  }

  /** Nobody jumps to `b`. */
  ghost function UnpatchedAll(m: Codes, b: BlockDesc): Codes
    requires Even(m)
  {
    map x | x in m :: Unpatched(m[x], b)
  }

  /** Every jump to `b` moves by `off`. */
  ghost function ShiftedAll(m: Codes, b: BlockDesc, off: nat): Codes
    requires Even(m)
  {
    map x | x in m :: Shifted(m[x], b, off)
  }

  /** The blocks that refer to `block` are those it jumps into. */
  ghost predicate RefersBack(m: Codes, block: BlockDesc)
    requires block in m && Even(m)
  {
    forall t {:trigger block in m[t].refs} {:trigger Reaches(m[block], t)} :: t in m ==>
      (block in m[t].refs <==> Reaches(m[block], t))
  }

  /** `b` no longer refers back to `a`. */
  function Forgotten(g: Graph, b: BlockDesc, a: BlockDesc): Graph
    requires b in g.code
  {
    g.(code := g.code[b := g.code[b].(refs := g.code[b].refs - {a})])
  }

  /** The blocks of `left` have forgotten `block`. */
  ghost function LeftBy(m: Codes, block: BlockDesc, left: set<BlockDesc>): Codes {
    map x | x in m :: if x in left then m[x].(refs := m[x].refs - {block}) else m[x]
  }

  lemma TargetFacts(m: Codes, s: seq<BlockDesc>, block: BlockDesc, i: nat, r: BlockDesc?)
    requires Members(s) == m.Keys && PointsOk(m) && AllApart(m) && AllLarge(m.Keys) && block in m
      && 1 <= i < |m[block].relocs| && m[block].points[i].jmp
    requires IsTarget(s, m[block].relocs[i].i0Addr, r)
    ensures r in m && r != block && Jumps(m[block], i, r) && IntoOk(m[block], r, m[r])
  {
    assert PointOk(m, block, i);
    var t: BlockDesc :| t in m && t != block && Leads(m[block], i, t, m[t]);
    MembersIn(s, t);
    if r != null {
      MembersIn(s, r);
      assert r != t ==> Apart(r, t);
    }
    IntoOkFor(m, block, t);
  }

  /** Nobody jumps to `block` any more, but `block` still jumps to others. */
  ghost predicate CutOffFrom(m: Codes, block: BlockDesc) {
    && Even(m) && block in m && |m[block].relocs| >= 1
    && forall k {:trigger Key(k)} :: Key(k) ==> LastJumps(m, block)
  }

  ghost predicate LastJumps(m: Codes, block: BlockDesc)
    requires Even(m) && block in m
  {
    && PointsOk(m) && AllApart(m) && AllLarge(m.Keys) && RefersBack(m, block) && Ordered(m[block].relocs)
    && forall b {:trigger m[b]} :: b in m ==> m[b].refs <= m.Keys
  }

  lemma OpenCutOff(m: Codes, block: BlockDesc)
    requires Even(m) && block in m && |m[block].relocs| >= 1
    ensures CutOffFrom(m, block) <==> LastJumps(m, block)
  {
    assert Key(0);
  }

  /** The target of relocation `i` has not been met before, and `block` is in its set. */
  lemma LeaveFacts(g: Graph, m: Codes, block: BlockDesc, i: nat, t: BlockDesc, left: set<BlockDesc>)
    requires CutOffFrom(m, block) && t in m && 1 <= i < |m[block].relocs| && Jumps(m[block], i, t)
    requires Behind(m[block], i, left) && g.code == LeftBy(m, block, left)
    ensures t !in left && t in g.code && block in g.code[t].refs && OwnBase(block, g.code[t].refs)
    ensures Forgotten(g, t, block).code == LeftBy(m, block, left + {t})
  {
    OpenCutOff(m, block);
    assert t !in left;
    assert Reaches(m[block], t);
    OwnBaseIn(m, block, m[t].refs);
  }

  lemma LeftAll(m: Codes, block: BlockDesc, left: set<BlockDesc>)
    requires CutOffFrom(m, block) && Behind(m[block], |m[block].relocs|, left) && left <= m.Keys
    ensures LeftBy(m, block, left) == LeftBy(m, block, m.Keys)
  {
    OpenCutOff(m, block);
    forall t | t in m && Reaches(m[block], t) ensures t in left {
      var k :| 1 <= k < |m[block].relocs| && Jumps(m[block], k, t);
      var u: BlockDesc :| u in left && Jumps(m[block], k, u);
      assert u != t ==> Apart(u, t);
    }
    forall t | t in m && t !in left ensures m[t].refs - {block} == m[t].refs {
    }
  }

  /** The patched relocations before `i` lead into the ranges of `left`, which `i` has passed. */
  ghost predicate Behind(c: Code, i: nat, left: set<BlockDesc>)
    requires |c.relocs| == |c.points|
  {
    && (forall k :: 1 <= k < i <= |c.relocs| && c.points[k].jmp ==> exists t :: t in left && Jumps(c, k, t))
    && forall t, k :: t in left && i <= k < |c.relocs| ==> t.End() <= c.relocs[k].i0Addr
  }

  /** The blocks of `left` have forgotten `block`, whose relocations before `i` are done with. */
  ghost predicate Leaving(now: Codes, m: Codes, block: BlockDesc, i: nat, left: set<BlockDesc>)
    requires Even(m) && block in m
  {
    now == LeftBy(m, block, left) && Behind(m[block], i, left) && left <= m.Keys
  }

  /** When every jump to `block` is taken back. */
  lemma CutOffFacts(v: View, g: Graph, block: BlockDesc)
    requires Inv(g) && Fits(v, g.code) && block in g.code
    ensures CutOffFrom(UnpatchedAll(g.code, block), block) && Fits(v, UnpatchedAll(g.code, block))
  {
    OpenInv(g);
    OpenFits(v, g.code);
    OpenFits(v, UnpatchedAll(g.code, block));
    UnpatchedReady(g.code, block);
    OrderedRelocs(g.code, block);
    assert g.code[block].Shaped();
    OpenCutOff(UnpatchedAll(g.code, block), block);
  }

  /** When `block` is cut off and has left its targets, taking it out is all that is missing from its deletion. */
  lemma DeletedFacts(d: PartitionIndex.Decoder, g: Graph, g1: Graph, g2: Graph, block: BlockDesc)
    requires Even(g.code) && block in g.code && Mapped(d, g.code)
    requires g1 == Graph(UnpatchedAll(g.code, block), g.table - set e | e in g.code[block].hashed)
    requires g2.table == g1.table && g2.code == LeftBy(g1.code, block, g1.code.Keys)
    ensures g2.(code := g2.code - {block}) == Deleted(g, block)
      && RefsOf(g2.code) - {block} == RefsOf(Deleted(g, block).code)
    ensures block in g2.code && Mapped(d, Deleted(g, block).code)
  {
    DeletedCode(g, block);
    MappedKept(d, g.code, Deleted(g, block).code);
  }

  lemma FitsDeleted(v: View, w: View, g: Graph, block: BlockDesc)
    requires Fits(v, g.code) && Even(g.code) && block in g.code && w.refs.contents == RefsOf(Deleted(g, block).code)
    requires Members(w.index.list) == Members(v.index.list) - {block}
    ensures Fits(w, Deleted(g, block).code)
  {
    OpenFits(v, g.code);
    OpenFits(w, Deleted(g, block).code);
  }

  /** `b` refers back to `a`. */
  function Remembered(g: Graph, b: BlockDesc, a: BlockDesc): Graph
    requires b in g.code
  {
    g.(code := g.code[b := g.code[b].(refs := g.code[b].refs + {a})])
  }

  /** Relocation `i` of `b` jumps to `address`. */
  function WithJump(g: Graph, b: BlockDesc, i: nat, address: nat): Graph
    requires b in g.code && i < |g.code[b].points|
  {
    g.(code := g.code[b := g.code[b].(points := g.code[b].points[i := Point(true, address)])])
  }

  /** Patching the point and adding the reference is linking. */
  lemma PatchedFacts(d: PartitionIndex.Decoder, v: View, g: Graph, from: BlockDesc, i: nat, b: BlockDesc, address: nat)
    requires Fits(v, g.code) && Inv(g) && Mapped(d, g.code) && from in g.code && b in g.code && from != b
      && i < |g.code[from].points|
    ensures var h := WithJump(g, from, i, address);
      && b in h.code && v.refs.contents == RefsOf(h.code) && OwnBase(from, h.code[b].refs)
      && Remembered(h, b, from) == Patched(g, from, i, b, address)
    ensures Mapped(d, Patched(g, from, i, b, address).code)
  {
    OpenFits(v, g.code);
    OpenInv(g);
    OwnBaseIn(g.code, from, g.code[b].refs);
    RefsKept(g.code, WithJump(g, from, i, address).code);
    MappedKept(d, g.code, Patched(g, from, i, b, address).code);
  }

  lemma FitsPatched(v: View, w: View, g: Graph, from: BlockDesc, i: nat, b: BlockDesc, address: nat)
    requires Fits(v, g.code) && from in g.code && b in g.code && from != b && i < |g.code[from].points|
    requires w.index == v.index && w.refs.contents == RefsOf(Patched(g, from, i, b, address).code)
    ensures Fits(w, Patched(g, from, i, b, address).code)
  {
    OpenFits(v, g.code);
    OpenFits(w, Patched(g, from, i, b, address).code);
  }

  /** The assertions of `InsertNativeCodeBlock` hold exactly when the new block overlaps no other. */
  lemma EnterFacts(v: View, i: IndexView, g: Graph, b: BlockDesc, ok: bool)
    requires Fits(v, g.code) && Inv(g) && b !in Members(v.index.list) && b.sourceSize > 0
    requires Ascending(v.index.list) && NoRepeats(v.index.list) && Ascending(i.list)
    requires exists k :: Put(v.index.list, i.list, k, b)
    requires Disjoint(v.index.list) ==> (ok <==> Disjoint(i.list))
    ensures b !in g.code && b !in v.refs.contents && (ok <==> forall a :: a in g.code ==> Apart(a, b))
  {
    OpenFits(v, g.code);
    OpenInv(g);
    var k :| Put(v.index.list, i.list, k, b);
    ApartDisjoint(v.index.list, g.code);
    ApartDecides(v.index.list, i.list, k, b, g.code);
  }

  lemma FitsEntered(v: View, w: View, m: Codes, b: BlockDesc, c: Code)
    requires Fits(v, m) && b !in m && b.sourceSize > 0 && c.refs == {}
    requires Members(w.index.list) == Members(v.index.list) + {b} && w.refs.contents == v.refs.contents[b := {}]
    ensures Fits(w, m[b := c])
  {
    OpenFits(v, m);
    OpenFits(w, m[b := c]);
    RefsPut(m, b, c);
  }

  lemma MappedMore(d: PartitionIndex.Decoder, m: Codes, b: BlockDesc, c: Code)
    requires Mapped(d, m) && Partitioned(d, b, c)
    ensures Mapped(d, m[b := c])
  {
    OpenMapped(d, m);
    OpenMapped(d, m[b := c]);
  }

  lemma FitsMember(v: View, m: Codes, block: BlockDesc)
    requires Fits(v, m)
    ensures block in m <==> block in Members(v.index.list)
  {
    OpenFits(v, m);
  }

  lemma FitsSame(v: View, m: Codes, m': Codes)
    requires Fits(v, m) && RefsOf(m') == RefsOf(m) && m'.Keys == m.Keys
    ensures Fits(v, m')
  {
    OpenFits(v, m);
    OpenFits(v, m');
  }

  lemma StartLeaving(m: Codes, block: BlockDesc)
    requires CutOffFrom(m, block)
    ensures Ordered(m[block].relocs) && Leaving(m, m, block, 1, {})
  {
    OpenCutOff(m, block);
  }

  ghost function MovedEntries(g: Graph, desc: BlockDesc, off: nat): map<nat, HashEntry>
    requires desc in g.code
  {
    map e | e in g.table ::
      if e in g.code[desc].hashed then g.table[e].(tpc := Moved(g.table[e].tpc, off)) else g.table[e]
  }

  /** The jumps, the table entries and the base: that is the whole rebase. */
  lemma RebasedInSteps(g: Graph, h: Graph, b: BlockDesc, newbase: nat)
    requires Even(g.code) && b in g.code && h == g.(code := ShiftedAll(g.code, b, Distance(g.code[b].native, newbase)))
    ensures var off := Distance(g.code[b].native, newbase);
      Graph(h.code[b := h.code[b].(native := newbase)], MovedEntries(h, b, off)) == Rebased(g, b, newbase)
  {
  }

  ghost predicate Distinct(s: seq<nat>) { forall i, j :: 0 <= i < j < |s| ==> s[i] != s[j] }

  ghost predicate Listed(g: Graph, b: BlockDesc)
    requires b in g.code
  {
    forall e :: e in g.code[b].hashed ==> e in g.table
  }

  lemma ListedEntries(g: Graph, b: BlockDesc)
    requires Inv(g) && b in g.code
    ensures Listed(g, b) && Distinct(g.code[b].hashed)
  {
    OpenInv(g);
    assert g.code[b].Shaped();
    forall e | e in g.code[b].hashed ensures e in g.table {
      assert EntryOk(g, b, e);
    }
  }

  /** Adding nothing changes nothing. */
  lemma RebaseNothing(g: Graph, b: BlockDesc, newbase: nat)
    requires Inv(g) && b in g.code && Distance(g.code[b].native, newbase) == 0
    ensures Rebased(g, b, newbase) == g.(code := g.code[b := g.code[b].(native := newbase)])
  {
    OpenInv(g);
    assert g.code[b].Shaped();
    forall a | a in g.code ensures Shifted(g.code[a], b, 0) == g.code[a] {
      forall i | 0 <= i < |g.code[a].points| ensures Shifted(g.code[a], b, 0).points[i] == g.code[a].points[i] {
        if i >= 1 && Jumps(g.code[a], i, b) {
          OneTarget(g.code, a, i, b);
        }
      }
      assert Shifted(g.code[a], b, 0).points == g.code[a].points;
    }
    forall e | e in g.code[b].hashed ensures EntryOk(g, b, e) {
    }
    var h := Rebased(g, b, newbase);
    assert h.table == g.table && h.code == g.code[b := g.code[b].(native := newbase)];
  }

  lemma NothingToShift(c: Code, b: BlockDesc, off: nat)
    requires |c.relocs| == |c.points| && !Reaches(c, b)
    ensures Shifted(c, b, off) == c
  {
    forall i | 1 <= i < |c.points| ensures !Jumps(c, i, b) {
    }
    assert Shifted(c, b, off).points == c.points;
  }

  lemma OneRef(m: Codes, b: BlockDesc, a: BlockDesc)
    requires PointsOk(m) && RefsOk(m) && AllApart(m) && b in m && a in m[b].refs
    ensures a in m && a != b
  {
    var i :| 1 <= i < |m[a].relocs| && Jumps(m[a], i, b);
    OneTarget(m, a, i, b);
  }

  lemma VisitFacts(m: Codes, b: BlockDesc, a: BlockDesc)
    requires PointsOk(m) && RefsOk(m) && AllApart(m) && AllShaped(m) && b in m && a in m[b].refs
    ensures a in m && a != b && IntoOk(m[a], b, m[b]) && Ordered(m[a].relocs)
  {
    OneRef(m, b, a);
    IntoOkFor(m, a, b);
    OrderedRelocs(m, a);
  }

  lemma NothingToUnpatch(c: Code, b: BlockDesc)
    requires |c.relocs| == |c.points| && !Reaches(c, b)
    ensures Unpatched(c, b) == c
  {
    forall i | 1 <= i < |c.points| ensures !Jumps(c, i, b) {
    }
    assert Unpatched(c, b).points == c.points;
  }

  // --- Visiting the blocks that refer to one ---

  /** The blocks of `done` have been visited. */
  ghost function UnpatchedBy(m: Codes, b: BlockDesc, done: seq<BlockDesc>): Codes
    requires Even(m)
  {
    map x | x in m :: if x in done then Unpatched(m[x], b) else m[x]
  }

  /** The next block has not been visited, and is ready for it. */
  lemma UnpatchedNext(g: Graph, m: Codes, b: BlockDesc, order: seq<BlockDesc>, k: nat)
    requires Inv(g) && g.code == m && b in m && EachOnce(order, m[b].refs) && k < |order|
    ensures var h := UnpatchedBy(m, b, order[..k]);
      && order[k] in m && h[order[k]] == m[order[k]] && h[b] == m[b] && Ordered(m[order[k]].relocs)
      && IntoOk(m[order[k]], b, m[b])
      && UnpatchedBy(m, b, order[..k + 1]) == h[order[k] := Unpatched(m[order[k]], b)]
  {
    OpenInv(g);
    VisitFacts(m, b, order[k]);
    assert order[..k + 1] == order[..k] + [order[k]];
    if b in order {
      OneRef(m, b, b);
    }
  }

  /** When all that refer to `b` have been visited, that is as good as visiting every block. */
  lemma UnpatchedEnough(g: Graph, m: Codes, b: BlockDesc, order: seq<BlockDesc>)
    requires Inv(g) && g.code == m && b in m && EachOnce(order, m[b].refs)
    ensures UnpatchedBy(m, b, order) == UnpatchedAll(m, b)
  {
    OpenInv(g);
    forall x | x in m && x !in order ensures Unpatched(m[x], b) == m[x] {
      assert !Reaches(m[x], b);
      NothingToUnpatch(m[x], b);
    }
  }

  /** The blocks of `done` have been visited. */
  ghost function ShiftedBy(m: Codes, b: BlockDesc, off: nat, done: seq<BlockDesc>): Codes
    requires Even(m)
  {
    map x | x in m :: if x in done then Shifted(m[x], b, off) else m[x]
  }

  /** The next block has not been visited, and is ready for it. */
  lemma ShiftedNext(g: Graph, m: Codes, b: BlockDesc, off: nat, order: seq<BlockDesc>, k: nat)
    requires Inv(g) && g.code == m && b in m && EachOnce(order, m[b].refs) && k < |order|
    ensures var h := ShiftedBy(m, b, off, order[..k]);
      && order[k] in m && h[order[k]] == m[order[k]] && h[b] == m[b] && Ordered(m[order[k]].relocs)
      && IntoOk(m[order[k]], b, m[b])
      && ShiftedBy(m, b, off, order[..k + 1]) == h[order[k] := Shifted(m[order[k]], b, off)]
  {
    OpenInv(g);
    VisitFacts(m, b, order[k]);
    assert order[..k + 1] == order[..k] + [order[k]];
    if b in order {
      OneRef(m, b, b);
    }
  }

  /** When all that refer to `b` have been visited, that is as good as visiting every block. */
  lemma ShiftedEnough(g: Graph, m: Codes, b: BlockDesc, off: nat, order: seq<BlockDesc>)
    requires Inv(g) && g.code == m && b in m && EachOnce(order, m[b].refs)
    ensures ShiftedBy(m, b, off, order) == ShiftedAll(m, b, off)
  {
    OpenInv(g);
    forall x | x in m && x !in order ensures Shifted(m[x], b, off) == m[x] {
      assert !Reaches(m[x], b);
      NothingToShift(m[x], b, off);
    }
  }

  /** What the index and the reference sets hold. */
  datatype View = View(index: IndexView, refs: TableView) {
    function With(c: map<BlockDesc, set<BlockDesc>>): View { this.(refs := refs.With(c)) }
  }

  /** The index holds the blocks of `m`, which have size, and the reference sets are those of `m`. */
  ghost predicate Fits(v: View, m: Codes) {
    forall k {:trigger Key(k)} :: Key(k) ==>
      Members(v.index.list) == m.Keys && v.refs.contents == RefsOf(m) && AllLarge(m.Keys)
  }

  lemma OpenFits(v: View, m: Codes)
    ensures Fits(v, m) <==> Members(v.index.list) == m.Keys && v.refs.contents == RefsOf(m) && AllLarge(m.Keys)
  {
    assert Key(0);
  }

  // --- The reference sets ---

  lemma EmptyFacts(d: PartitionIndex.Decoder)
    requires PartitionIndex.Moves(d)
    ensures Inv(Graph(map[], map[])) && Mapped(d, map[]) && RefsOf(map[]) == map[] && AllLarge({}) && Members([]) == {}
  {
    OpenInv(Graph(map[], map[]));
  }

  /** What the reference sets should hold. */
  ghost function RefsOf(m: Codes): map<BlockDesc, set<BlockDesc>> {
    map b | b in m :: m[b].refs
  }

  lemma RefsPut(m: Codes, b: BlockDesc, c: Code)
    ensures RefsOf(m[b := c]) == RefsOf(m)[b := c.refs]
  {
  }

  lemma RefsKept(m: Codes, m': Codes)
    requires m'.Keys == m.Keys && forall b :: b in m ==> m'[b].refs == m[b].refs
    ensures RefsOf(m') == RefsOf(m)
  {
  }

  lemma OwnBaseIn(m: Codes, a: BlockDesc, others: set<BlockDesc>)
    requires AllApart(m) && AllLarge(m.Keys) && a in m && others <= m.Keys
    ensures OwnBase(a, others)
  {
    forall o | o in others && o.sourceBase == a.sourceBase ensures o == a {
      assert o != a ==> Apart(o, a);
    }
  }

  lemma {:induction false} Smaller(a: set<BlockDesc>, b: set<BlockDesc>)
    requires a <= b
    ensures |a| <= |b|
  {
    if x :| x in a {
      Smaller(a - {x}, b - {x});
    }
  }

  // --- The partition index of every block ---

  function Start(b: BlockDesc, c: Code): PartitionIndex.Place { PartitionIndex.Place(b.sourceBase, c.native) }

  /** The partition list of the block is right, and the native code of its instructions is inside its native code. */
  ghost predicate Partitioned(d: PartitionIndex.Decoder, b: BlockDesc, c: Code) {
    && PartitionIndex.Indexed(c.parts, d, Start(b, c))
    && forall k: nat {:trigger PartitionIndex.After(d, Start(b, c), k)} ::
      PartitionIndex.After(d, Start(b, c), k).i0 < b.End() ==> c.Covers(PartitionIndex.After(d, Start(b, c), k).native)
  }

  ghost predicate Mapped(d: PartitionIndex.Decoder, m: Codes) {
    forall k {:trigger Key(k)} :: Key(k) ==>
      PartitionIndex.Moves(d) && forall b {:trigger Partitioned(d, b, m[b])} :: b in m ==> Partitioned(d, b, m[b])
  }

  lemma OpenMapped(d: PartitionIndex.Decoder, m: Codes)
    ensures Mapped(d, m) <==>
      PartitionIndex.Moves(d) && forall b {:trigger Partitioned(d, b, m[b])} :: b in m ==> Partitioned(d, b, m[b])
  {
    assert Key(0);
  }

  lemma PartitionedMoves(d: PartitionIndex.Decoder, b: BlockDesc, c: Code, c': Code)
    requires Partitioned(d, b, c) && c'.parts == c.parts && c'.nativeSize == c.nativeSize
    ensures Partitioned(d, b, c')
  {
    PartitionIndex.IndexedMoves(c.parts, d, b.sourceBase, c.native, c'.native);
    forall k: nat | PartitionIndex.After(d, Start(b, c'), k).i0 < b.End()
      ensures c'.Covers(PartitionIndex.After(d, Start(b, c'), k).native) {
      PartitionIndex.AfterMoves(d, b.sourceBase, c.native, c'.native, k);
      assert PartitionIndex.After(d, Start(b, c), k).i0 < b.End();
    }
  }

  /** The partition lists stay right through every step that leaves them alone, also where native code moves. */
  lemma MappedKept(d: PartitionIndex.Decoder, m: Codes, m': Codes)
    requires Mapped(d, m) && m'.Keys <= m.Keys
    requires forall b :: b in m' ==> m'[b].parts == m[b].parts && m'[b].nativeSize == m[b].nativeSize
    ensures Mapped(d, m')
  {
    OpenMapped(d, m);
    forall b | b in m' ensures Partitioned(d, b, m'[b]) {
      assert Partitioned(d, b, m[b]);
      PartitionedMoves(d, b, m[b], m'[b]);
    }
  }

  lemma RebasedKept(d: PartitionIndex.Decoder, g: Graph, b: BlockDesc, newbase: nat)
    requires Even(g.code) && b in g.code && Mapped(d, g.code)
    ensures var m := Rebased(g, b, newbase).code; Mapped(d, m) && RefsOf(m) == RefsOf(g.code) && m.Keys == g.code.Keys
  {
    var m := Rebased(g, b, newbase).code;
    RefsKept(g.code, m);
    MappedKept(d, g.code, m);
  }

  /** Where an instruction of the block starts, stepping finds native code of the block. */
  lemma ExactCovers(d: PartitionIndex.Decoder, b: BlockDesc, c: Code, spc: nat)
    requires PartitionIndex.Moves(d) && Partitioned(d, b, c) && In(b, spc)
      && PartitionIndex.StepTo(d, Start(b, c), spc).i0 == spc
    ensures c.Covers(PartitionIndex.StepTo(d, Start(b, c), spc).native)
  {
    PartitionIndex.ReachesExactly(d, Start(b, c), spc);
    var k: nat :| PartitionIndex.After(d, Start(b, c), k) == PartitionIndex.StepTo(d, Start(b, c), spc);
  }

  // --- Where a new block would go ---

  /** An instruction of the block starts at `spc`. */
  ghost predicate Starts(d: PartitionIndex.Decoder, b: BlockDesc, c: Code, spc: nat) {
    exists k: nat :: PartitionIndex.After(d, Start(b, c), k).i0 == spc
  }

  /** The blocks before place `k` have bases up to `spc`, the others have not. */
  ghost predicate Below(s: seq<BlockDesc>, spc: nat, k: int) {
    && 0 <= k <= |s| && (forall i :: 0 <= i < k ==> s[i].sourceBase <= spc)
    && forall i :: k <= i < |s| ==> spc < s[i].sourceBase
  }

  /** The blocks before place `k` end before `spc`, the others begin after it: none holds it. */
  ghost predicate GapAt(s: seq<BlockDesc>, spc: nat, k: int) {
    && 0 <= k <= |s| && (forall i :: 0 <= i < k ==> s[i].End() <= spc)
    && forall i :: k <= i < |s| ==> spc < s[i].sourceBase
  }

  /** A block for `spc` would go between `pre` and `next`, which are neighbours. */
  ghost predicate Gap(s: seq<BlockDesc>, spc: nat, pre: BlockDesc?, next: BlockDesc?) {
    exists k :: GapAt(s, spc, k) && pre == Prior(s, k) && next == Later(s, k - 1)
  }

  /** What holds of the list of the blocks. */
  lemma ListFacts(v: View, g: Graph)
    requires Fits(v, g.code) && Inv(g) && Ascending(v.index.list) && NoRepeats(v.index.list)
    ensures Disjoint(v.index.list) && forall b :: b in v.index.list <==> b in g.code
    ensures forall b :: b in v.index.list ==> b.sourceSize > 0
  {
    OpenFits(v, g.code);
    OpenInv(g);
    ApartDisjoint(v.index.list, g.code);
    forall b | b in v.index.list || b in g.code ensures b in v.index.list && b in g.code {
      MembersIn(v.index.list, b);
    }
  }

  /** The blocks of `s` are those of `m`, disjoint and in order, and `k` is the place of `spc` among them. */
  ghost predicate Placed(m: Codes, s: seq<BlockDesc>, spc: nat, k: nat) {
    && Disjoint(s) && NoRepeats(s) && Below(s, spc, k)
    && (forall b :: b in s ==> b in m) && forall b :: b in m ==> b in s
  }

  /** The native address that stepping from the start of the block finds. */
  ghost function Stepped(d: PartitionIndex.Decoder, b: BlockDesc, c: Code, spc: nat): nat
    requires PartitionIndex.Moves(d)
  {
    PartitionIndex.StepTo(d, Start(b, c), spc).native
  }

  /** Stepping reaches `spc` exactly if an instruction starts there. */
  lemma StartsExactly(d: PartitionIndex.Decoder, b: BlockDesc, c: Code, spc: nat)
    requires PartitionIndex.Moves(d) && In(b, spc)
    ensures Starts(d, b, c, spc) <==> PartitionIndex.StepTo(d, Start(b, c), spc).i0 == spc
  {
    PartitionIndex.ReachesExactly(d, Start(b, c), spc);
    if Starts(d, b, c, spc) {
      var k: nat :| PartitionIndex.After(d, Start(b, c), k).i0 == spc;
      assert PartitionIndex.After(d, Start(b, c), k).i0 == spc;
      var m := PartitionIndex.StepToFirst(d, Start(b, c), 0, spc);
      PartitionIndex.ReachedFirst(d, Start(b, c), spc, k, m);
    }
  }

  /** The target is the block before the place of `spc`. */
  lemma TargetPlace(s: seq<BlockDesc>, spc: nat, r: BlockDesc?) returns (k: nat)
    requires Ascending(s) && Disjoint(s) && (forall b :: b in s ==> b.sourceSize > 0) && IsTarget(s, spc, r)
    ensures Below(s, spc, k) && r == Prior(s, k)
  {
    if r == null {
      k := 0;
    } else {
      var j :| 0 <= j < |s| && s[j] == r;
      k := j + 1;
      forall i | k <= i < |s| ensures spc < s[i].sourceBase {
        assert s[j].End() <= s[i].sourceBase;
      }
    }
  }

  /** The block before the place of `spc` ends before it: so do all before. */
  lemma GapBelow(s: seq<BlockDesc>, spc: nat, k: nat)
    requires Disjoint(s) && Below(s, spc, k) && (k > 0 ==> s[k - 1].End() <= spc)
    ensures GapAt(s, spc, k) && forall b :: b in s ==> !In(b, spc)
  {
  }

  /** The block before the place of `spc` holds it and goes: no other block holds it. */
  lemma GapWithout(s: seq<BlockDesc>, s': seq<BlockDesc>, spc: nat, k: nat, j: nat)
    requires Disjoint(s) && NoRepeats(s) && Below(s, spc, k) && 0 < k && Put(s', s, j, s[k - 1])
    ensures GapAt(s', spc, k - 1) && Prior(s', k - 1) == Prior(s, k - 1) && Later(s', k - 2) == Later(s, k - 1)
  {
    assert j == k - 1;
    forall i | 0 <= i < |s'| ensures s'[i] == s[if i < j then i else i + 1] {
    }
  }
}
