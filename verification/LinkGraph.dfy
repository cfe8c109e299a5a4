/** Translated blocks chained by patched jumps: what linking, deleting and rebasing do to all of them,
    and the invariant every run keeps. src/NativeCodeBlock.c, on values. */
module LinkGraph {
  import opened Blocks
  import opened Seals
  import PartitionIndex
  import opened Words

  /** `NativeCodeRelocRealEntry`: where block code jumps to `i0Addr`. Entry 0 of a list is the header. */
  datatype Reloc = Reloc(i0Addr: nat, nativeOffset: nat)

  /** `NativeCodeRelocPointJMP` in the native code: `call *%rax` through the stub, or a patched `jmp *%rax`. */
  datatype Point = Point(jmp: bool, target: nat)

  /** The parts of `NativeCodeBlockDesc` beside its place in the index. `table` is the address of
      `Relocs.list`, `points[i]` the code that `relocs[i]` describes, `hashed` is `RefedIJTab`, `parts` is `Part`. */
  datatype Code = Code(native: nat, nativeSize: nat, table: nat, relocs: seq<Reloc>, points: seq<Point>,
                       refs: set<BlockDesc>, hashed: seq<nat>, parts: seq<PartitionIndex.Part>)
  {
    /** The address of `mov_rsi_op` in entry `i` of 20 bytes. */
    function Stub(i: nat): nat { table + 20 * i + 5 }

    predicate Covers(address: nat) { native <= address < native + nativeSize }

    ghost predicate Shaped() {
      && |points| == |relocs| >= 1 && native + nativeSize <= WORD
      && (forall i, j :: 1 <= i <= j < |relocs| ==> relocs[i].i0Addr <= relocs[j].i0Addr)
      && (forall i :: 1 <= i < |relocs| ==> relocs[i].nativeOffset < nativeSize)
      && forall i, j :: 0 <= i < j < |hashed| ==> hashed[i] != hashed[j]
    }
  }

  predicate In(b: BlockDesc, address: nat) { b.sourceBase <= address < b.End() }

  /** Relocation `i` is patched and leads into the source range of `b`. */
  predicate Jumps(c: Code, i: nat, b: BlockDesc)
    requires i < |c.relocs| == |c.points|
  {
    c.points[i].jmp && In(b, c.relocs[i].i0Addr)
  }

  ghost predicate Reaches(c: Code, b: BlockDesc)
    requires |c.relocs| == |c.points|
  {
    exists i :: 1 <= i < |c.relocs| && Jumps(c, i, b)
  }

  /** Entry of the table of indirect jumps. */
  datatype HashEntry = HashEntry(spc: nat, tpc: nat)

  type Codes = map<BlockDesc, Code>

  datatype Graph = Graph(code: Codes, table: map<nat, HashEntry>)

  ghost predicate Apart(a: BlockDesc, b: BlockDesc) { a.End() <= b.sourceBase || b.End() <= a.sourceBase }

  /** The block that patched relocation `i` of `c` leads into is `b`. */
  predicate Leads(c: Code, i: nat, b: BlockDesc, d: Code)
    requires i < |c.relocs| == |c.points|
  {
    In(b, c.relocs[i].i0Addr) && d.Covers(c.points[i].target)
  }

  predicate Even(m: Codes) { forall a {:trigger m[a]} :: a in m ==> |m[a].relocs| == |m[a].points| }

  /** An unpatched point calls its own stub, a patched one jumps into another live block that holds its source
      address. */
  ghost predicate PointOk(m: Codes, a: BlockDesc, i: nat)
    requires Even(m) && a in m && i < |m[a].relocs|
  {
    if m[a].points[i].jmp then exists b :: b in m && b != a && Leads(m[a], i, b, m[b])
    else m[a].points[i].target == m[a].Stub(i)
  }

  ghost predicate PointsOk(m: Codes) {
    Even(m) && forall a, i :: a in m && 1 <= i < |m[a].relocs| ==> PointOk(m, a, i)
  }

  /** `b` refers back to exactly the blocks that jump into it. */
  ghost predicate RefsOk(m: Codes) {
    && Even(m) && (forall b {:trigger m[b]} :: b in m ==> m[b].refs <= m.Keys)
    && forall a, b {:trigger a in m[b].refs} {:trigger Reaches(m[a], b)} :: a in m && b in m ==>
      (a in m[b].refs <==> Reaches(m[a], b))
  }

  ghost predicate AllApart(m: Codes) {
    forall a, b {:trigger Apart(a, b)} :: a in m && b in m && a != b ==> Apart(a, b)
  }

  ghost predicate AllShaped(m: Codes) {
    forall a {:trigger m[a].Shaped()} :: a in m ==> m[a].Shaped()
  }

  ghost predicate EntryOk(g: Graph, b: BlockDesc, e: nat)
    requires b in g.code
  {
    e in g.table && In(b, g.table[e].spc) && g.code[b].Covers(g.table[e].tpc)
  }

  /** A table entry leads to the one block that lists it. */
  ghost predicate HashOk(g: Graph) {
    && (forall b, e {:trigger EntryOk(g, b, e)} :: b in g.code && e in g.code[b].hashed ==> EntryOk(g, b, e))
    && forall a, b, e {:trigger e in g.code[a].hashed, e in g.code[b].hashed} ::
      a in g.code && b in g.code && e in g.code[a].hashed && e in g.code[b].hashed ==> a == b
  }

  ghost predicate Sound(g: Graph) {
    AllShaped(g.code) && AllApart(g.code) && PointsOk(g.code) && RefsOk(g.code) && HashOk(g)
  }

  /** The link invariant: what `Sound` says, sealed. */
  ghost predicate Inv(g: Graph) {
    Even(g.code) && forall k {:trigger Key(k)} :: Key(k) ==> Sound(g)
  }

  lemma OpenInv(g: Graph)
    ensures Inv(g) <==> Sound(g)
  {
    assert Key(0);
  }

  // --- The steps ---

  /** Every patched point of `c` that leads into `b` calls its stub again. */
  function Unpatched(c: Code, b: BlockDesc): (r: Code)
    requires |c.relocs| == |c.points|
  {
    c.(points := seq(|c.points|, i requires 0 <= i < |c.points| =>
      if i >= 1 && Jumps(c, i, b) then Point(false, c.Stub(i)) else c.points[i]))
  }

  /** 64-bit subtraction. */
  function Distance(native: nat, newbase: nat): nat { (newbase - native) % WORD }

  /** 64-bit addition. */
  function Moved(address: nat, off: nat): nat { (address + off) % WORD }

  /** Every patched point of `c` that leads into `b` has `off` added to its target. */
  function Shifted(c: Code, b: BlockDesc, off: nat): (r: Code)
    requires |c.relocs| == |c.points|
  {
    c.(points := seq(|c.points|, i requires 0 <= i < |c.points| =>
      if i >= 1 && Jumps(c, i, b) then Point(true, Moved(c.points[i].target, off)) else c.points[i]))
  }

  /** Deleting `b`: no one jumps to it, no one is referenced by it, its table entries are gone. */
  function Deleted(g: Graph, b: BlockDesc): Graph
    requires Even(g.code) && b in g.code
  {
    Graph(map x | x in g.code.Keys - {b} :: Unpatched(g.code[x], b).(refs := g.code[x].refs - {b}),
          g.table - (set e | e in g.code[b].hashed))
  }

  /** Patching relocation `i` of `from` to go to `address` in `b`. */
  function Patched(g: Graph, from: BlockDesc, i: nat, b: BlockDesc, address: nat): Graph
    requires from in g.code && b in g.code && from != b && i < |g.code[from].points|
  {
    var c := g.code[from];
    g.(code := g.code[from := c.(points := c.points[i := Point(true, address)])]
                     [b := g.code[b].(refs := g.code[b].refs + {from})])
  }

  /** Moving the native code of `b` to `newbase`. */
  function Rebased(g: Graph, b: BlockDesc, newbase: nat): Graph
    requires Even(g.code) && b in g.code
  {
    var off := Distance(g.code[b].native, newbase);
    Graph((map x | x in g.code :: Shifted(g.code[x], b, off))[b := Shifted(g.code[b], b, off).(native := newbase)],
          map e | e in g.table ::
            if e in g.code[b].hashed then g.table[e].(tpc := Moved(g.table[e].tpc, off)) else g.table[e])
  }

  /** Address `spc` of `b` gets entry `e` in the table of indirect jumps. */
  function Recorded(g: Graph, b: BlockDesc, e: nat, spc: nat, tpc: nat): Graph
    requires b in g.code
  {
    Graph(g.code[b := g.code[b].(hashed := g.code[b].hashed + [e])], g.table[e := HashEntry(spc, tpc)])
  }

  /** A newly translated block: nothing is patched and nobody refers to it. */
  ghost predicate Fresh(b: BlockDesc, c: Code) {
    && c.Shaped() && c.refs == {} && c.hashed == []
    && forall i :: 1 <= i < |c.relocs| ==> c.points[i] == Point(false, c.Stub(i))
  }

  // --- Each step keeps the invariant ---

  /** A patched point leads into the only block that holds its source address. */
  lemma OneTarget(m: Codes, a: BlockDesc, i: nat, b: BlockDesc)
    requires PointsOk(m) && AllApart(m) && a in m && b in m && 1 <= i < |m[a].relocs| && Jumps(m[a], i, b)
    ensures a != b && Leads(m[a], i, b, m[b])
  {
    assert PointOk(m, a, i);
    var t: BlockDesc :| t in m && t != a && Leads(m[a], i, t, m[t]);
    assert t != b ==> Apart(t, b);
  }

  lemma DeletedPoint(g: Graph, b: BlockDesc, a: BlockDesc, i: nat)
    requires PointsOk(g.code) && b in g.code && a in g.code && a != b && 1 <= i < |g.code[a].relocs|
    ensures PointOk(Deleted(g, b).code, a, i)
  {
    var m, h := g.code, Deleted(g, b).code;
    assert PointOk(m, a, i);
    if m[a].points[i].jmp && !Jumps(m[a], i, b) {
      var t: BlockDesc :| t in m && t != a && Leads(m[a], i, t, m[t]);
      assert t in h && Leads(h[a], i, t, h[t]);
    }
  }

  lemma DeletedReaches(c: Code, b: BlockDesc, t: BlockDesc, refs: set<BlockDesc>)
    requires |c.relocs| == |c.points|
    ensures !Reaches(Unpatched(c, b).(refs := refs), b)
    ensures Apart(b, t) ==> (Reaches(Unpatched(c, b).(refs := refs), t) <==> Reaches(c, t))
  {
    var d := Unpatched(c, b).(refs := refs);
    forall i | 1 <= i < |c.relocs| ensures !Jumps(d, i, b) && (Apart(b, t) ==> (Jumps(d, i, t) <==> Jumps(c, i, t))) {
    }
  }

  lemma DeletedRefs(g: Graph, b: BlockDesc)
    requires RefsOk(g.code) && AllApart(g.code) && b in g.code
    ensures RefsOk(Deleted(g, b).code)
    ensures var m := Deleted(g, b).code; forall a :: a in m ==> !Reaches(m[a], b) && b !in m[a].refs
  {
    var m, h := g.code, Deleted(g, b).code;
    forall a, t | a in h && t in h ensures !Reaches(h[a], b) && (a in h[t].refs <==> Reaches(h[a], t)) {
      assert Apart(b, t);
      DeletedReaches(m[a], b, t, h[a].refs);
    }
  }

  lemma DeletedHash(g: Graph, b: BlockDesc)
    requires HashOk(g) && Even(g.code) && b in g.code
    ensures HashOk(Deleted(g, b))
  {
    var h := Deleted(g, b);
    forall a, e | a in h.code && e in h.code[a].hashed ensures EntryOk(h, a, e) {
      assert EntryOk(g, a, e) && e in g.code[a].hashed;
    }
    forall a, c, e | a in h.code && c in h.code && e in h.code[a].hashed && e in h.code[c].hashed ensures a == c {
      assert e in g.code[a].hashed && e in g.code[c].hashed;
    }
  }

  /** After a deletion nobody jumps to the block or refers to it. */
  lemma DeletedNobody(g: Graph, b: BlockDesc)
    requires Inv(g) && b in g.code
    ensures var m := Deleted(g, b).code; forall a :: a in m ==> !Reaches(m[a], b) && b !in m[a].refs
  {
    OpenInv(g);
    DeletedRefs(g, b);
  }

  lemma DeletedInv(g: Graph, b: BlockDesc)
    requires Inv(g) && b in g.code
    ensures var h := Deleted(g, b); Inv(h) && h.code.Keys == g.code.Keys - {b}
  {
    OpenInv(g);
    var h := Deleted(g, b);
    forall a, i | a in h.code && 1 <= i < |h.code[a].relocs| ensures PointOk(h.code, a, i) {
      DeletedPoint(g, b, a, i);
    }
    forall a | a in h.code ensures h.code[a].Shaped() {
      SameShape(g.code[a], h.code[a]);
    }
    DeletedRefs(g, b);
    DeletedHash(g, b);
  }

  lemma SameShape(c: Code, d: Code)
    requires c.Shaped() && d.relocs == c.relocs && |d.points| == |c.points| && d.nativeSize == c.nativeSize
      && d.hashed == c.hashed
    requires d.native + d.nativeSize <= WORD
    ensures d.Shaped()
  {
  }

  lemma PatchedPoint(g: Graph, from: BlockDesc, i: nat, b: BlockDesc, address: nat, a: BlockDesc, j: nat)
    requires PointsOk(g.code) && from in g.code && b in g.code && from != b && 1 <= i < |g.code[from].points|
    requires In(b, g.code[from].relocs[i].i0Addr) && g.code[b].Covers(address)
    requires a in g.code && 1 <= j < |g.code[a].relocs|
    ensures PointOk(Patched(g, from, i, b, address).code, a, j)
  {
    var m, h := g.code, Patched(g, from, i, b, address).code;
    assert PointOk(m, a, j);
    if a == from && j == i {
      assert Leads(h[a], j, b, h[b]);
    } else if m[a].points[j].jmp {
      var t: BlockDesc :| t in m && t != a && Leads(m[a], j, t, m[t]);
      assert Leads(h[a], j, t, h[t]);
    }
  }

  lemma SameReaches(c: Code, d: Code, t: BlockDesc)
    requires |c.relocs| == |c.points| == |d.points| && c.relocs == d.relocs
    requires forall i :: 1 <= i < |c.points| ==> (c.points[i].jmp == d.points[i].jmp || !In(t, c.relocs[i].i0Addr))
    ensures Reaches(c, t) <==> Reaches(d, t)
  {
    forall i | 1 <= i < |c.relocs| ensures Jumps(c, i, t) <==> Jumps(d, i, t) {
    }
  }

  lemma PatchedRefs(g: Graph, from: BlockDesc, i: nat, b: BlockDesc, address: nat)
    requires RefsOk(g.code) && AllApart(g.code) && from in g.code && b in g.code && from != b
      && 1 <= i < |g.code[from].points|
    requires In(b, g.code[from].relocs[i].i0Addr)
    ensures RefsOk(Patched(g, from, i, b, address).code)
  {
    var m, h := g.code, Patched(g, from, i, b, address).code;
    forall a, t | a in h && t in h ensures a in h[t].refs <==> Reaches(h[a], t) {
      assert a in m[t].refs <==> Reaches(m[a], t);
      if a == from && t == b {
        assert Jumps(h[a], i, t);
      } else {
        assert t != b ==> Apart(t, b);
        SameReaches(m[a], h[a], t);
      }
    }
  }

  lemma PatchedShapes(g: Graph, from: BlockDesc, i: nat, b: BlockDesc, address: nat)
    requires AllShaped(g.code) && from in g.code && b in g.code && from != b && i < |g.code[from].points|
    ensures AllShaped(Patched(g, from, i, b, address).code)
  {
    var h := Patched(g, from, i, b, address).code;
    forall a | a in h ensures h[a].Shaped() {
      SameShape(g.code[a], h[a]);
    }
  }

  lemma PatchedInv(g: Graph, from: BlockDesc, i: nat, b: BlockDesc, address: nat)
    requires Inv(g) && from in g.code && b in g.code && from != b && 1 <= i < |g.code[from].points|
    requires In(b, g.code[from].relocs[i].i0Addr) && g.code[b].Covers(address)
    ensures Inv(Patched(g, from, i, b, address))
  {
    OpenInv(g);
    var h := Patched(g, from, i, b, address);
    forall a, j | a in h.code && 1 <= j < |h.code[a].relocs| ensures PointOk(h.code, a, j) {
      PatchedPoint(g, from, i, b, address, a, j);
    }
    PatchedRefs(g, from, i, b, address);
    PatchedShapes(g, from, i, b, address);
    SameHash(g, h);
  }

  lemma SameHash(g: Graph, h: Graph)
    requires HashOk(g) && g.table == h.table && g.code.Keys <= h.code.Keys
    requires forall a :: a in g.code ==>
      var c, d := g.code[a], h.code[a]; c.hashed == d.hashed && c.native == d.native && c.nativeSize == d.nativeSize
    requires forall a :: a in h.code && a !in g.code ==> h.code[a].hashed == []
    ensures HashOk(h)
  {
    forall a, e | a in h.code && e in h.code[a].hashed ensures EntryOk(h, a, e) {
      assert EntryOk(g, a, e) && e in g.code[a].hashed;
    }
    forall a, c, e | a in h.code && c in h.code && e in h.code[a].hashed && e in h.code[c].hashed ensures a == c {
      assert e in g.code[a].hashed && e in g.code[c].hashed;
    }
  }

  /** Adding the 64-bit distance between two bases moves a covered address along with the code. */
  lemma OffsetMoves(native: nat, size: nat, newbase: nat, address: nat)
    requires native + size <= WORD && newbase + size <= WORD && native <= address < native + size
    ensures Moved(address, Distance(native, newbase)) == newbase + (address - native)
  {
  }

  lemma RebasedPoint(g: Graph, b: BlockDesc, newbase: nat, a: BlockDesc, i: nat)
    requires PointsOk(g.code) && AllApart(g.code) && b in g.code && g.code[b].native + g.code[b].nativeSize <= WORD
    requires newbase + g.code[b].nativeSize <= WORD && a in g.code && 1 <= i < |g.code[a].relocs|
    ensures PointOk(Rebased(g, b, newbase).code, a, i)
    ensures Jumps(g.code[a], i, b) ==>
      Rebased(g, b, newbase).code[a].points[i].target - newbase == g.code[a].points[i].target - g.code[b].native
  {
    var m, h := g.code, Rebased(g, b, newbase).code;
    assert PointOk(m, a, i);
    if Jumps(m[a], i, b) {
      OneTarget(m, a, i, b);
      OffsetMoves(m[b].native, m[b].nativeSize, newbase, m[a].points[i].target);
      assert Leads(h[a], i, b, h[b]);
    } else if m[a].points[i].jmp {
      var t: BlockDesc :| t in m && t != a && Leads(m[a], i, t, m[t]);
      assert Leads(h[a], i, t, h[t]);
    }
  }

  lemma RebasedHash(g: Graph, b: BlockDesc, newbase: nat)
    requires HashOk(g) && Even(g.code) && b in g.code && g.code[b].native + g.code[b].nativeSize <= WORD
    requires newbase + g.code[b].nativeSize <= WORD
    ensures HashOk(Rebased(g, b, newbase))
  {
    var h := Rebased(g, b, newbase);
    forall a, e | a in h.code && e in h.code[a].hashed ensures EntryOk(h, a, e) {
      assert EntryOk(g, a, e) && e in g.code[a].hashed;
      if a == b {
        OffsetMoves(g.code[b].native, g.code[b].nativeSize, newbase, g.table[e].tpc);
      }
    }
    forall a, c, e | a in h.code && c in h.code && e in h.code[a].hashed && e in h.code[c].hashed ensures a == c {
      assert e in g.code[a].hashed && e in g.code[c].hashed;
    }
  }

  lemma RebasedRefs(g: Graph, b: BlockDesc, newbase: nat)
    requires RefsOk(g.code) && b in g.code
    ensures RefsOk(Rebased(g, b, newbase).code)
  {
    var m, h := g.code, Rebased(g, b, newbase).code;
    forall a, t | a in h && t in h ensures a in h[t].refs <==> Reaches(h[a], t) {
      assert a in m[t].refs <==> Reaches(m[a], t);
      SameReaches(m[a], h[a], t);
    }
  }

  /** A rebase moves every jump and table entry that leads to the block along with it. */
  lemma RebasedInv(g: Graph, b: BlockDesc, newbase: nat)
    requires Inv(g) && b in g.code && newbase + g.code[b].nativeSize <= WORD
    ensures Inv(Rebased(g, b, newbase))
  {
    OpenInv(g);
    var h := Rebased(g, b, newbase);
    assert g.code[b].Shaped();
    forall a, i | a in h.code && 1 <= i < |h.code[a].relocs| ensures PointOk(h.code, a, i) {
      RebasedPoint(g, b, newbase, a, i);
    }
    forall a | a in h.code ensures h.code[a].Shaped() {
      SameShape(g.code[a], h.code[a]);
    }
    RebasedRefs(g, b, newbase);
    RebasedHash(g, b, newbase);
  }

  lemma AddedPoint(m: Codes, b: BlockDesc, c: Code, a: BlockDesc, i: nat)
    requires PointsOk(m) && b !in m && Fresh(b, c) && a in m[b := c] && 1 <= i < |m[b := c][a].relocs|
    ensures PointOk(m[b := c], a, i)
  {
    var h := m[b := c];
    if a != b {
      assert PointOk(m, a, i);
      if m[a].points[i].jmp {
        var t: BlockDesc :| t in m && t != a && Leads(m[a], i, t, m[t]);
        assert Leads(h[a], i, t, h[t]);
      }
    }
  }

  lemma AddedRefs(m: Codes, b: BlockDesc, c: Code)
    requires PointsOk(m) && RefsOk(m) && b !in m && Fresh(b, c) && forall a :: a in m ==> Apart(a, b)
    ensures RefsOk(m[b := c])
  {
    var h := m[b := c];
    forall a, t | a in h && t in h ensures a in h[t].refs <==> Reaches(h[a], t) {
      if a != b && t == b {
        forall i | 1 <= i < |m[a].relocs| ensures !Jumps(m[a], i, b) {
          assert PointOk(m, a, i);
        }
      }
    }
  }

  lemma AddedInv(g: Graph, b: BlockDesc, c: Code)
    requires Inv(g) && b !in g.code && Fresh(b, c) && forall a :: a in g.code ==> Apart(a, b)
    ensures Inv(g.(code := g.code[b := c]))
  {
    OpenInv(g);
    var h := g.(code := g.code[b := c]);
    forall a, i | a in h.code && 1 <= i < |h.code[a].relocs| ensures PointOk(h.code, a, i) {
      AddedPoint(g.code, b, c, a, i);
    }
    AddedRefs(g.code, b, c);
    forall a | a in h.code ensures h.code[a].Shaped() {
      if a != b {
        SameShape(g.code[a], h.code[a]);
      }
    }
    SameHash(g, h);
  }

  lemma RecordedHash(g: Graph, b: BlockDesc, e: nat, spc: nat, tpc: nat)
    requires HashOk(g) && b in g.code && e !in g.table && In(b, spc) && g.code[b].Covers(tpc)
    ensures HashOk(Recorded(g, b, e, spc, tpc))
  {
    var h := Recorded(g, b, e, spc, tpc);
    forall a, x | a in h.code && x in h.code[a].hashed
      ensures EntryOk(h, a, x) && (x == e <==> a == b && x !in g.code[a].hashed) {
      if x in g.code[a].hashed {
        assert EntryOk(g, a, x);
      }
    }
    forall a, c, x | a in h.code && c in h.code && x in h.code[a].hashed && x in h.code[c].hashed ensures a == c {
      assert EntryOk(h, a, x) && EntryOk(h, c, x);
      if x != e {
        assert x in g.code[a].hashed && x in g.code[c].hashed;
      }
    }
  }

  lemma RecordedPoint(g: Graph, b: BlockDesc, e: nat, spc: nat, tpc: nat, a: BlockDesc, i: nat)
    requires PointsOk(g.code) && b in g.code && a in g.code && 1 <= i < |g.code[a].relocs|
    ensures PointOk(Recorded(g, b, e, spc, tpc).code, a, i)
  {
    var m, h := g.code, Recorded(g, b, e, spc, tpc).code;
    assert PointOk(m, a, i);
    if m[a].points[i].jmp {
      var t: BlockDesc :| t in m && t != a && Leads(m[a], i, t, m[t]);
      assert Leads(h[a], i, t, h[t]);
    }
  }

  lemma RecordedRefs(g: Graph, b: BlockDesc, e: nat, spc: nat, tpc: nat)
    requires RefsOk(g.code) && b in g.code
    ensures RefsOk(Recorded(g, b, e, spc, tpc).code)
  {
    var m, h := g.code, Recorded(g, b, e, spc, tpc).code;
    forall a, t | a in h && t in h ensures a in h[t].refs <==> Reaches(h[a], t) {
      assert a in m[t].refs <==> Reaches(m[a], t);
      SameReaches(m[a], h[a], t);
    }
  }

  /** A new table entry keeps the invariant. */
  lemma RecordedInv(g: Graph, b: BlockDesc, e: nat, spc: nat, tpc: nat)
    requires Inv(g) && b in g.code && e !in g.table && In(b, spc) && g.code[b].Covers(tpc)
    ensures Inv(Recorded(g, b, e, spc, tpc))
  {
    OpenInv(g);
    var h := Recorded(g, b, e, spc, tpc);
    forall a, i | a in h.code && 1 <= i < |h.code[a].relocs| ensures PointOk(h.code, a, i) {
      RecordedPoint(g, b, e, spc, tpc, a, i);
    }
    RecordedRefs(g, b, e, spc, tpc);
    RecordedHash(g, b, e, spc, tpc);
    forall a | a in h.code ensures h.code[a].Shaped() {
      assert g.code[a].Shaped();
      assert a == b ==> e !in g.code[b].hashed by {
        assert e in g.code[b].hashed ==> EntryOk(g, b, e);
      }
    }
  }

  // --- What the steps undo ---

  /** Deleting the block of a table entry takes the entry out again. */
  lemma RecordThenDelete(g: Graph, b: BlockDesc, e: nat, spc: nat, tpc: nat)
    requires Inv(g) && b in g.code && e !in g.table
    ensures Deleted(Recorded(g, b, e, spc, tpc), b) == Deleted(g, b)
  {
    OpenInv(g);
    assert Deleted(Recorded(g, b, e, spc, tpc), b).code == Deleted(g, b).code;
    assert Deleted(Recorded(g, b, e, spc, tpc), b).table == Deleted(g, b).table;
  }

  lemma LinkUnpatched(g: Graph, from: BlockDesc, i: nat, b: BlockDesc, address: nat)
    requires Inv(g) && from in g.code && b in g.code && from != b && 1 <= i < |g.code[from].points|
    requires In(b, g.code[from].relocs[i].i0Addr) && !g.code[from].points[i].jmp
    ensures Unpatched(Patched(g, from, i, b, address).code[from], b) == Unpatched(g.code[from], b)
  {
    OpenInv(g);
    assert PointOk(g.code, from, i);
    assert Unpatched(Patched(g, from, i, b, address).code[from], b).points == Unpatched(g.code[from], b).points;
  }

  /** Deleting the target of a link takes the link back. */
  lemma LinkThenDelete(g: Graph, from: BlockDesc, i: nat, b: BlockDesc, address: nat)
    requires Inv(g) && from in g.code && b in g.code && from != b && 1 <= i < |g.code[from].points|
    requires In(b, g.code[from].relocs[i].i0Addr) && !g.code[from].points[i].jmp
    ensures Deleted(Patched(g, from, i, b, address), b) == Deleted(g, b)
  {
    OpenInv(g);
    LinkUnpatched(g, from, i, b, address);
    assert Deleted(Patched(g, from, i, b, address), b).code == Deleted(g, b).code;
  }

  lemma RebasePointBack(g: Graph, b: BlockDesc, newbase: nat, a: BlockDesc, i: nat)
    requires PointsOk(g.code) && AllApart(g.code) && b in g.code && g.code[b].native + g.code[b].nativeSize <= WORD
    requires newbase + g.code[b].nativeSize <= WORD && a in g.code && i < |g.code[a].points|
    ensures Rebased(Rebased(g, b, newbase), b, g.code[b].native).code[a].points[i] == g.code[a].points[i]
  {
    var m, h := g.code, Rebased(g, b, newbase).code;
    if i >= 1 && Jumps(m[a], i, b) {
      OneTarget(m, a, i, b);
      OffsetMoves(m[b].native, m[b].nativeSize, newbase, m[a].points[i].target);
      OffsetMoves(newbase, m[b].nativeSize, m[b].native, h[a].points[i].target);
    }
  }

  lemma RebaseCodeBack(g: Graph, b: BlockDesc, newbase: nat, a: BlockDesc)
    requires PointsOk(g.code) && AllApart(g.code) && b in g.code && g.code[b].native + g.code[b].nativeSize <= WORD
    requires newbase + g.code[b].nativeSize <= WORD && a in g.code
    ensures Rebased(Rebased(g, b, newbase), b, g.code[b].native).code[a] == g.code[a]
  {
    var d := Rebased(Rebased(g, b, newbase), b, g.code[b].native).code[a];
    forall i | 0 <= i < |g.code[a].points| ensures d.points[i] == g.code[a].points[i] {
      RebasePointBack(g, b, newbase, a, i);
    }
    assert d.points == g.code[a].points;
  }

  lemma RebaseEntryBack(g: Graph, b: BlockDesc, newbase: nat, e: nat)
    requires HashOk(g) && Even(g.code) && b in g.code && g.code[b].native + g.code[b].nativeSize <= WORD
    requires newbase + g.code[b].nativeSize <= WORD && e in g.table
    ensures Rebased(Rebased(g, b, newbase), b, g.code[b].native).table[e] == g.table[e]
  {
    if e in g.code[b].hashed {
      assert EntryOk(g, b, e);
      OffsetMoves(g.code[b].native, g.code[b].nativeSize, newbase, g.table[e].tpc);
      OffsetMoves(newbase, g.code[b].nativeSize, g.code[b].native, Rebased(g, b, newbase).table[e].tpc);
    }
  }

  lemma RebaseTableBack(g: Graph, b: BlockDesc, newbase: nat)
    requires HashOk(g) && Even(g.code) && b in g.code && g.code[b].native + g.code[b].nativeSize <= WORD
    requires newbase + g.code[b].nativeSize <= WORD
    ensures Rebased(Rebased(g, b, newbase), b, g.code[b].native).table == g.table
  {
    var k := Rebased(Rebased(g, b, newbase), b, g.code[b].native).table;
    forall e | e in g.table ensures k[e] == g.table[e] {
      RebaseEntryBack(g, b, newbase, e);
    }
  }

  lemma RebaseCodesBack(g: Graph, b: BlockDesc, newbase: nat)
    requires PointsOk(g.code) && AllApart(g.code) && b in g.code && g.code[b].native + g.code[b].nativeSize <= WORD
    requires newbase + g.code[b].nativeSize <= WORD
    ensures Rebased(Rebased(g, b, newbase), b, g.code[b].native).code == g.code
  {
    var k := Rebased(Rebased(g, b, newbase), b, g.code[b].native).code;
    forall a | a in g.code ensures k[a] == g.code[a] {
      RebaseCodeBack(g, b, newbase, a);
    }
  }

  /** Moving a block there and back changes nothing. */
  lemma RebaseBack(g: Graph, b: BlockDesc, newbase: nat)
    requires Inv(g) && b in g.code && newbase + g.code[b].nativeSize <= WORD
    ensures Rebased(Rebased(g, b, newbase), b, g.code[b].native) == g
  {
    OpenInv(g);
    assert g.code[b].Shaped();
    RebaseCodesBack(g, b, newbase);
    RebaseTableBack(g, b, newbase);
  }

  // --- Runs ---

  datatype Step =
    | Add(b: BlockDesc, c: Code)
    | Link(from: BlockDesc, i: nat, to: BlockDesc, address: nat)
    | Record(b: BlockDesc, e: nat, spc: nat, tpc: nat)
    | Delete(b: BlockDesc)
    | Rebase(b: BlockDesc, newbase: nat)

  /** What the callers see to before each step. */
  ghost predicate Ready(g: Graph, s: Step) {
    match s
    case Add(b, c) => b !in g.code && Fresh(b, c) && forall a :: a in g.code ==> Apart(a, b)
    case Link(from, i, to, address) =>
      && from in g.code && to in g.code && from != to && 1 <= i < |g.code[from].relocs| == |g.code[from].points|
      && In(to, g.code[from].relocs[i].i0Addr) && g.code[to].Covers(address)
    case Record(b, e, spc, tpc) => b in g.code && e !in g.table && In(b, spc) && g.code[b].Covers(tpc)
    case Delete(b) => b in g.code
    case Rebase(b, newbase) => b in g.code && newbase + g.code[b].nativeSize <= WORD
  }

  function After(g: Graph, s: Step): Graph
    requires Even(g.code) && Ready(g, s)
  {
    match s
    case Add(b, c) => g.(code := g.code[b := c])
    case Link(from, i, to, address) => Patched(g, from, i, to, address)
    case Record(b, e, spc, tpc) => Recorded(g, b, e, spc, tpc)
    case Delete(b) => Deleted(g, b)
    case Rebase(b, newbase) => Rebased(g, b, newbase)
  }

  /** `run` leads from state to state by steps that were ready. */
  ghost predicate Run(states: seq<Graph>, steps: seq<Step>) {
    && |states| == |steps| + 1 && states[0] == Graph(map[], map[])
    && forall k :: 0 <= k < |steps| ==>
      Even(states[k].code) && Ready(states[k], steps[k]) && states[k + 1] == After(states[k], steps[k])
  }

  lemma {:induction false} RunKeeps(states: seq<Graph>, steps: seq<Step>, k: nat)
    requires Run(states, steps) && k < |states|
    ensures Inv(states[k])
  {
    if k > 0 {
      RunKeeps(states, steps, k - 1);
      var g := states[k - 1];
      match steps[k - 1]
      case Add(b, c) => AddedInv(g, b, c);
      case Link(from, i, to, address) => PatchedInv(g, from, i, to, address);
      case Record(b, e, spc, tpc) => RecordedInv(g, b, e, spc, tpc);
      case Delete(b) => DeletedInv(g, b);
      case Rebase(b, newbase) => RebasedInv(g, b, newbase);
    }
  }
}
