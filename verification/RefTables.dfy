/** The back-reference sets of all blocks, each with a tree of its own. */
module RefTables {
  import opened RbTree
  import opened Blocks
  import opened RefSets
  import opened Seals

  /** A reference set, the memory it takes, and its members. */
  datatype Owner = Owner(s: RefSet, root: RbRoot<BlockDesc>, nodes: set<BNode>, refs: set<BlockDesc>)

  type Owners = map<BlockDesc, Owner>

  ghost predicate Owns(o: Owner)
    reads o.s`refCnt, o.root`node, o.root`tree, o.root`nodes, o.nodes`parent, o.nodes`color, o.nodes`left, o.nodes`right
  {
    forall k {:trigger Key(k)} :: Key(k) ==>
      o.s.treeRoot == o.root && o.root.nodes == o.nodes && o.s.Valid() && o.s.Refs() == o.refs
  }

  lemma OpenOwner(o: Owner)
    ensures Owns(o) <==> o.s.treeRoot == o.root && o.root.nodes == o.nodes && o.s.Valid() && o.s.Refs() == o.refs
  {
    assert Key(0);
  }

  method AddOwned(s: RefSet, ghost o: Owner, b: BlockDesc) returns (ghost p: Owner)
    requires Owns(o) && OwnBase(b, o.refs) && o.s == s
    modifies o.s, o.root, o.nodes
    ensures Owns(p) && p == Owner(o.s, o.root, p.nodes, o.refs + {b}) && fresh(p.nodes - o.nodes)
  {
    OpenOwner(o);
    s.AddToRefSet(b);
    p := Owner(o.s, o.root, o.s.treeRoot.nodes, o.s.Refs());
    OpenOwner(p);
  }

  method DeleteOwned(s: RefSet, ghost o: Owner, b: BlockDesc) returns (found: bool, ghost p: Owner)
    requires Owns(o) && OwnBase(b, o.refs) && o.s == s
    modifies o.s, o.root, o.nodes
    ensures Owns(p) && p == Owner(o.s, o.root, p.nodes, o.refs - {b}) && p.nodes <= o.nodes
    ensures found <==> b in o.refs
  {
    OpenOwner(o);
    found := s.DeleteFromRefSet(b);
    p := Owner(o.s, o.root, o.s.treeRoot.nodes, o.s.Refs());
    OpenOwner(p);
  }

  /** Two sets share no memory. */
  ghost predicate Separated(o: Owner, p: Owner) {
    o.s != p.s && o.root != p.root && o.nodes !! p.nodes
  }

  ghost predicate AllSeparated(m: Owners) {
    forall a, b {:trigger Separated(m[a], m[b])} :: a in m && b in m && a != b ==> Separated(m[a], m[b])
  }

  ghost predicate Inside(m: Owners, heads: set<RefSet>, roots: set<RbRoot<BlockDesc>>, nodes: set<BNode>) {
    forall a {:trigger m[a]} :: a in m ==> m[a].s in heads && m[a].root in roots && m[a].nodes <= nodes
  }

  /** The reference sets of `m` are sound, each in memory of its own, all of it inside `heads`, `roots` and `nodes`. */
  ghost predicate AllOwned(m: Owners, heads: set<RefSet>, roots: set<RbRoot<BlockDesc>>, nodes: set<BNode>)
    reads heads`refCnt, roots`node, roots`tree, roots`nodes, nodes`parent, nodes`color, nodes`left, nodes`right
  {
    Inside(m, heads, roots, nodes) && AllSeparated(m) && forall b {:trigger m[b]} :: b in m ==> Owns(m[b])
  }

  method AddTo(s: RefSet, b: BlockDesc, block: BlockDesc, ghost m: Owners, ghost heads: set<RefSet>,
      ghost roots: set<RbRoot<BlockDesc>>, ghost nodes: set<BNode>) returns (ghost p: Owner)
    requires AllOwned(m, heads, roots, nodes) && block in m && m[block].s == s && OwnBase(b, m[block].refs)
    modifies heads, roots, nodes
    ensures AllOwned(m[block := p], heads, roots, nodes + p.nodes) && fresh(p.nodes - nodes)
    ensures p == Owner(s, m[block].root, p.nodes, m[block].refs + {b})
  {
    ghost var o := m[block];
    p := AddOwned(s, o, b);
    forall a | a in m && a != block ensures Owns(m[a]) && Separated(m[a], p) && Separated(p, m[a]) {
      assert Separated(m[a], o) && Separated(o, m[a]);
    }
  }

  method DeleteFrom(s: RefSet, b: BlockDesc, block: BlockDesc, ghost m: Owners, ghost heads: set<RefSet>,
      ghost roots: set<RbRoot<BlockDesc>>, ghost nodes: set<BNode>) returns (found: bool, ghost p: Owner)
    requires AllOwned(m, heads, roots, nodes) && block in m && m[block].s == s && OwnBase(b, m[block].refs)
    modifies heads, roots, nodes
    ensures AllOwned(m[block := p], heads, roots, nodes)
    ensures p == Owner(s, m[block].root, p.nodes, m[block].refs - {b}) && (found <==> b in m[block].refs)
  {
    ghost var o := m[block];
    found, p := DeleteOwned(s, o, b);
    forall a | a in m && a != block ensures Owns(m[a]) && Separated(m[a], p) && Separated(p, m[a]) {
      assert Separated(m[a], o) && Separated(o, m[a]);
    }
  }

  method MakeOwned() returns (s: RefSet, ghost p: Owner)
    ensures fresh(s) && fresh(p.root) && fresh(p.nodes) && Owns(p) && p == Owner(s, p.root, p.nodes, {})
  {
    s := new RefSet();
    p := Owner(s, s.treeRoot, s.treeRoot.nodes, {});
    OpenOwner(p);
  }

  /** A new set in new memory. */
  method AddNew(block: BlockDesc, ghost m: Owners, ghost heads: set<RefSet>, ghost roots: set<RbRoot<BlockDesc>>,
      ghost nodes: set<BNode>)
      returns (s: RefSet, ghost p: Owner)
    requires AllOwned(m, heads, roots, nodes) && block !in m
    ensures AllOwned(m[block := p], heads + {s}, roots + {p.root}, nodes + p.nodes)
    ensures p == Owner(s, p.root, p.nodes, {}) && fresh(p.root) && fresh(p.nodes) && fresh(s)
  {
    s, p := MakeOwned();
    forall a | a in m ensures Owns(m[a]) && Separated(m[a], p) && Separated(p, m[a]) {
    }
  }

  /** The members of every set. */
  ghost function Contents(m: Owners): map<BlockDesc, set<BlockDesc>> {
    map b | b in m :: m[b].refs
  }

  lemma ContentsPut(m: Owners, block: BlockDesc, p: Owner)
    ensures Contents(m[block := p]) == Contents(m)[block := p.refs]
  {
  }

  /** The members of every set, and the memory the table takes. */
  datatype TableView = TableView(contents: map<BlockDesc, set<BlockDesc>>, repr: set<object>) {
    function With(c: map<BlockDesc, set<BlockDesc>>): TableView { this.(contents := c) }
  }

  class RefTable
    {
    var sets: map<BlockDesc, RefSet>
    ghost var owners: Owners
    ghost var heads: set<RefSet>
    ghost var roots: set<RbRoot<BlockDesc>>
    ghost var nodes: set<BNode>
    ghost var repr: set<object>

    constructor ()
      ensures Shows() == Some(TableView(map[], {this}))
    {
      sets, owners, heads, roots, nodes, repr := map[], map[], {}, {}, {}, {this};
      new;
      OpenShown(TableView(map[], {this}));
    }

    ghost predicate Valid()
      reads `sets, `owners, `heads, `roots, `nodes, heads`refCnt, roots`node, roots`tree, roots`nodes, nodes`parent,
        nodes`color, nodes`left, nodes`right
    {
      OneSetEach(sets, owners) && AllOwned(owners, heads, roots, nodes)
    }

    /** What the table holds, if it is well formed. */
    ghost function Shows(): Option<TableView>
      reads this, repr
    {
      if this in repr && heads <= repr && roots <= repr && nodes <= repr
        && forall k {:trigger Key(k)} :: Key(k) ==> Valid()
      then Some(TableView(Contents(owners), repr))
      else None
    }

    lemma OpenShown(v: TableView)
      ensures Shows() == Some(v) <==>
        && this in repr && heads <= repr && roots <= repr && nodes <= repr && Valid()
        && v == TableView(Contents(owners), repr)
    {
      assert Key(0);
    }

    ghost method Reach(r: set<object>)
      requires Valid() && this in r && heads <= r && roots <= r && nodes <= r
      modifies this`repr
      ensures Shows() == Some(TableView(Contents(old(owners)), r))
    {
      repr := r;
      OpenShown(TableView(Contents(owners), r));
    }

    ghost method Record(m: Owners, h: set<RefSet>, r: set<RbRoot<BlockDesc>>, n: set<BNode>)
      requires AllOwned(m, h, r, n)
      modifies this`owners, this`heads, this`roots, this`nodes
      ensures AllOwned(m, h, r, n) && owners == m && heads == h && roots == r && nodes == n
    {
      owners, heads, roots, nodes := m, h, r, n;
    }

    /** The set of `block` has become `p`. */
    ghost method Change(block: BlockDesc, p: Owner, n: set<BNode>)
      requires OneSetEach(sets, owners) && block in owners && p.s == owners[block].s
      requires AllOwned(owners[block := p], heads, roots, n)
      modifies this`owners, this`heads, this`roots, this`nodes
      ensures Valid() && owners == old(owners)[block := p] && heads == old(heads) && roots == old(roots) && nodes == n
    {
      Record(owners[block := p], heads, roots, n);
    }

    method AddToRefSet(refToAdd: BlockDesc, block: BlockDesc)
      requires Valid() && block in owners && OwnBase(refToAdd, owners[block].refs)
      modifies this`owners, this`heads, this`roots, this`nodes, heads, roots, nodes
      ensures Valid() && Contents(owners) == Contents(old(owners))[block := old(owners)[block].refs + {refToAdd}]
      ensures heads == old(heads) && roots == old(roots) && fresh(nodes - old(nodes))
    {
      ghost var p := AddTo(sets[block], refToAdd, block, owners, heads, roots, nodes);
      ContentsPut(owners, block, p);
      Change(block, p, nodes + p.nodes);
    }

    /** `found` is false where the C code reaches `assert(0)`. */
    method DeleteFromRefSet(refToDelete: BlockDesc, block: BlockDesc) returns (found: bool)
      requires Valid() && block in owners && OwnBase(refToDelete, owners[block].refs)
      modifies this`owners, this`heads, this`roots, this`nodes, heads, roots, nodes
      ensures Valid() && Contents(owners) == Contents(old(owners))[block := old(owners)[block].refs - {refToDelete}]
      ensures heads == old(heads) && roots == old(roots) && nodes == old(nodes)
      ensures found <==> refToDelete in old(owners)[block].refs
    {
      ghost var p;
      found, p := DeleteFrom(sets[block], refToDelete, block, owners, heads, roots, nodes);
      ContentsPut(owners, block, p);
      Change(block, p, nodes);
    }

    /** The same, in terms of what the table shows. */
    method Delete(refToDelete: BlockDesc, block: BlockDesc, ghost v: TableView) returns (found: bool)
      requires Shows() == Some(v) && block in v.contents && OwnBase(refToDelete, v.contents[block])
      modifies this, v.repr
      ensures Shows() == Some(v.With(v.contents[block := v.contents[block] - {refToDelete}]))
      ensures found <==> refToDelete in v.contents[block]
    {
      OpenShown(v);
      found := DeleteFromRefSet(refToDelete, block);
      Reach(repr);
    }

    /** `AddToRefSet` in terms of what the table shows. */
    method Add(refToAdd: BlockDesc, block: BlockDesc, ghost v: TableView) returns (ghost w: TableView)
      requires Shows() == Some(v) && block in v.contents && OwnBase(refToAdd, v.contents[block])
      modifies this, v.repr
      ensures Shows() == Some(w) && w.contents == v.contents[block := v.contents[block] + {refToAdd}]
      ensures fresh(w.repr - v.repr)
    {
      OpenShown(v);
      AddToRefSet(refToAdd, block);
      w := TableView(Contents(owners), repr + nodes);
      Reach(repr + nodes);
    }

    /** A new block has no references yet. */
    method Enter(block: BlockDesc)
      requires Valid() && block !in owners
      modifies this`sets, this`owners, this`heads, this`roots, this`nodes
      ensures Valid() && Contents(owners) == Contents(old(owners))[block := {}]
      ensures fresh(heads - old(heads)) && fresh(roots - old(roots)) && fresh(nodes - old(nodes))
    {
      ghost var m := owners;
      var s;
      ghost var p;
      s, p := AddNew(block, m, heads, roots, nodes);
      sets := sets[block := s];
      ContentsPut(m, block, p);
      Record(m[block := p], heads + {s}, roots + {p.root}, nodes + p.nodes);
    }

    /** A deleted block takes its set with it. */
    method Leave(block: BlockDesc)
      requires Valid() && block in owners
      modifies this`sets, this`owners, this`heads, this`roots, this`nodes
      ensures Valid() && Contents(owners) == Contents(old(owners)) - {block}
      ensures heads == old(heads) && roots == old(roots) && nodes == old(nodes)
    {
      sets := sets - {block};
      Record(owners - {block}, heads, roots, nodes);
    }

    /** `Enter` in terms of what the table shows. */
    method New(block: BlockDesc, ghost v: TableView) returns (ghost w: TableView)
      requires Shows() == Some(v) && block !in v.contents
      modifies this
      ensures Shows() == Some(w) && w.contents == v.contents[block := {}] && fresh(w.repr - v.repr)
    {
      OpenShown(v);
      Enter(block);
      w := TableView(Contents(owners), repr + heads + roots + nodes);
      Reach(repr + heads + roots + nodes);
    }

    /** `Leave` in terms of what the table shows. */
    method Remove(block: BlockDesc, ghost v: TableView)
      requires Shows() == Some(v) && block in v.contents
      modifies this
      ensures Shows() == Some(v.With(v.contents - {block}))
    {
      OpenShown(v);
      Leave(block);
      Reach(repr);
    }

    /** `Walk` in terms of what the table shows. */
    method Order(block: BlockDesc, ghost v: TableView) returns (order: seq<BlockDesc>)
      requires Shows() == Some(v) && block in v.contents && |v.contents[block]| < 0x1_0000_0000
      ensures EachOnce(order, v.contents[block])
    {
      OpenShown(v);
      order := Walk(block);
    }

    /** The blocks that refer to `block` in the order of the walk through its tree. */
    method Walk(block: BlockDesc) returns (order: seq<BlockDesc>)
      requires Valid() && block in owners && |owners[block].refs| < 0x1_0000_0000
      ensures EachOnce(order, owners[block].refs)
    {
      OpenOwner(owners[block]);
      order := sets[block].Walk();
    }
  }

  ghost predicate OneSetEach(sets: map<BlockDesc, RefSet>, m: Owners) {
    sets.Keys == m.Keys && forall b {:trigger m[b]} {:trigger sets[b]} :: b in m ==> m[b].s == sets[b]
  }
}
