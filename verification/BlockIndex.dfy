/** The translation-cache index of src/NativeCodeBlock.c: a red-black tree of blocks threaded by a
    doubly linked list. */
module BlockIndex {
  import opened RbShape
  import opened RbMemory
  import opened RbTree
  import opened RbOps
  import opened Blocks
  import opened BlockList
  import opened Seals

  /** Each source range ends before the next one starts. */
  ghost predicate Disjoint(s: seq<BlockDesc>) {
    forall i, j :: 0 <= i < j < |s| ==> s[i].End() <= s[j].sourceBase
  }

  /** The bases do not decrease. */
  ghost predicate Ascending(s: seq<BlockDesc>) {
    forall i, j :: 0 <= i < j < |s| ==> s[i].sourceBase <= s[j].sourceBase
  }

  lemma ThreadedAscending(items: seq<BNode>, s: seq<BlockDesc>)
    requires Sorted(items) && Threaded(items, s)
    ensures Ascending(s)
  {
    forall i, j | 0 <= i < j < |s| ensures s[i].sourceBase <= s[j].sourceBase {
      assert items[i].entry == s[i] && items[j].entry == s[j];
    }
  }

  lemma PutItems(items: seq<BNode>, s: seq<BlockDesc>, a: seq<BNode>, node: BNode, b: seq<BNode>)
    requires Threaded(items, s) && items == a + b
    ensures Threaded(a + [node] + b, s[..|a|] + [node.entry] + s[|a|..])
    ensures Put(s, s[..|a|] + [node.entry] + s[|a|..], |a|, node.entry)
  {
  }

  /** The checks of the new block against its two neighbours decide disjointness from all the others. */
  lemma NeighboursDecide(s: seq<BlockDesc>, s': seq<BlockDesc>, k: nat, b: BlockDesc)
    requires Disjoint(s) && Put(s, s', k, b)
    ensures Disjoint(s') <==> (k > 0 ==> s[k - 1].End() <= b.sourceBase) && (k < |s| ==> b.End() <= s[k].sourceBase)
  {
    if (k > 0 ==> s[k - 1].End() <= b.sourceBase) && (k < |s| ==> b.End() <= s[k].sourceBase) {
      forall i, j | 0 <= i < j < |s'| ensures s'[i].End() <= s'[j].sourceBase {
        assert i != k ==> s'[i] == s[if i < k then i else i - 1];
        assert j != k ==> s'[j] == s[if j < k then j else j - 1];
      }
    } else {
      assert s'[k] == b;
      assert k > 0 ==> s'[k - 1] == s[k - 1];
      assert k < |s| ==> s'[k + 1] == s[k];
    }
  }

  /** The descent of `InsertNativeCodeBlock`. */
  method FindSlot(root: RbRoot<BlockDesc>, k: nat) returns (parent: RbNode?<BlockDesc>, side: Side, ghost c: Ctx<BNode>)
    requires root.Valid() && Sorted(root.Items())
    ensures Zip(c, Leaf) == root.tree && parent == Par(c) && (c.Frame? ==> side == c.side)
    ensures root.Items() == Before(c) + After(c) && AllBelow(Before(c), k) && AllFrom(After(c), k)
  {
    var pos := root.node;
    parent, side := null, Left;
    c := Top;
    ghost var t := root.tree;
    root.Open();
    while pos != null
      invariant Zip(c, t) == root.tree && At(root, c, t) && pos == Ptr(t) && parent == Par(c)
      invariant c.Frame? ==> side == c.side
      invariant AllBelow(Before(c), k) && AllFrom(After(c), k)
      decreases t
    {
      Descend(c, t, k);
      parent := pos;
      if pos.entry.sourceBase < k {
        AtDown(root, c, t, Right);
        pos, side := pos.right, Right;
      } else {
        AtDown(root, c, t, Left);
        pos, side := pos.left, Left;
      }
      c, t := Into(c, t, side), t.Kid(side);
    }
    ZipSeq(c, Leaf);
  }

  /** `r` is the block with the greatest base that is not above `spc`, null when there is none. */
  ghost predicate IsTarget(s: seq<BlockDesc>, spc: nat, r: BlockDesc?) {
    if r == null then forall b :: b in s ==> b.sourceBase > spc
    else r in s && r.sourceBase <= spc && forall b :: b in s && b.sourceBase <= spc ==> b.sourceBase <= r.sourceBase
  }

  lemma TargetAt(items: seq<BNode>, s: seq<BlockDesc>, k: nat, spc: nat)
    requires Sorted(items) && Threaded(items, s) && k <= |s|
    requires (k > 0 ==> Base(items[k - 1]) <= spc) && (k < |s| ==> Base(items[k]) > spc)
    ensures IsTarget(s, spc, Prior(s, k))
  {
    forall b | b in s ensures b.sourceBase <= spc ==> k > 0 && b.sourceBase <= s[k - 1].sourceBase {
      var i :| 0 <= i < |s| && s[i] == b;
      assert items[i].entry == b;
      assert k > 0 ==> items[k - 1].entry == s[k - 1];
    }
    assert k > 0 ==> items[k - 1].entry == s[k - 1];
  }

  lemma SamePlace(s: seq<BlockDesc>, i: nat, j: nat, spc: nat)
    requires Disjoint(s) && i < |s| && j < |s| && s[j].sourceSize > 0
    requires s[i].sourceBase <= s[j].sourceBase <= spc < s[i].End()
    ensures i == j
  {
  }

  /** When ranges are disjoint, an address lies in some block exactly when it lies in the one found for it. */
  lemma TargetCovers(s: seq<BlockDesc>, spc: nat, r: BlockDesc?)
    requires Disjoint(s) && (forall b :: b in s ==> b.sourceSize > 0) && IsTarget(s, spc, r)
    ensures (exists b :: b in s && b.sourceBase <= spc < b.End()) <==> r != null && spc < r.End()
    ensures forall b :: b in s && b.sourceBase <= spc < b.End() ==> b == r
  {
    forall b | b in s && b.sourceBase <= spc < b.End() ensures b == r {
      var i :| 0 <= i < |s| && s[i] == b;
      var j :| 0 <= j < |s| && s[j] == r;
      SamePlace(s, i, j, spc);
    }
  }

  lemma TakeKeepsDisjoint(s: seq<BlockDesc>, s': seq<BlockDesc>, k: nat, b: BlockDesc)
    requires Disjoint(s) && Put(s', s, k, b)
    ensures Disjoint(s')
  {
    forall i, j | 0 <= i < j < |s'| ensures s'[i].End() <= s'[j].sourceBase {
      assert s'[i] == s[if i < k then i else i + 1] && s'[j] == s[if j < k then j else j + 1];
    }
  }

  lemma TargetHit(items: seq<BNode>, s: seq<BlockDesc>, n: BNode, spc: nat)
    requires Threaded(items, s) && n in items && Base(n) == spc
    ensures IsTarget(s, spc, n.entry)
  {
    var i :| 0 <= i < |items| && items[i] == n;
    assert s[i] == n.entry;
  }

  /** The descent for `spc` cannot go right: the node is the target. */
  lemma EndsRight(items: seq<BNode>, s: seq<BlockDesc>, c: Ctx<BNode>, t: Tree<BNode>, spc: nat)
    requires Sorted(items) && Threaded(items, s) && t.Node? && items == Seq(Zip(c, t)) && AllFrom(After(c), spc + 1)
    requires Base(t.n) < spc && t.right.Leaf?
    ensures IsTarget(s, spc, t.n.entry)
  {
    ZipSeq(c, t);
    var k := |Before(c)| + |Seq(t)|;
    assert Seq(t)[|Seq(t)| - 1] == t.n;
    assert items[k - 1] == t.n && items[k - 1].entry == s[k - 1];
    assert k < |items| ==> items[k] == After(c)[0];
    TargetAt(items, s, k, spc);
  }

  /** The descent for `spc` cannot go left: the target is the block before the node. */
  lemma EndsLeft(items: seq<BNode>, s: seq<BlockDesc>, c: Ctx<BNode>, t: Tree<BNode>, spc: nat)
    requires Sorted(items) && Threaded(items, s) && t.Node? && items == Seq(Zip(c, t)) && AllBelow(Before(c), spc)
    requires Base(t.n) > spc && t.left.Leaf?
    ensures |Before(c)| < |s| && s[|Before(c)|] == t.n.entry && IsTarget(s, spc, Prior(s, |Before(c)|))
  {
    ZipSeq(c, t);
    var k := |Before(c)|;
    assert Seq(t)[0] == t.n;
    assert items[k] == t.n && items[k].entry == s[k];
    assert k > 0 ==> items[k - 1] == Before(c)[k - 1];
    TargetAt(items, s, k, spc);
  }

  /** The descent of `FindTargetBlock`: to a node with the key, or without the child to go on to. */
  method DescendFor(root: RbRoot<BlockDesc>, spc: nat) returns (pos: BNode, ghost c: Ctx<BNode>, ghost t: Tree<BNode>)
    requires root.Valid() && Sorted(root.Items()) && root.node != null
    ensures t.Node? && t.n == pos && root.Items() == Seq(Zip(c, t)) && AllBelow(Before(c), spc)
      && AllFrom(After(c), spc + 1)
    ensures Base(pos) == spc || t.Kid(if Base(pos) < spc then Right else Left).Leaf?
  {
    pos := root.node;
    c, t := Top, root.tree;
    root.Open();
    while true
      invariant Zip(c, t) == root.tree && At(root, c, t) && t.Node? && pos == t.n
      invariant AllBelow(Before(c), spc) && AllFrom(After(c), spc + 1)
      decreases t
    {
      if pos.entry.sourceBase == spc {
        return;
      }
      Descend(c, t, spc);
      Descend(c, t, spc + 1);
      var side := if pos.entry.sourceBase < spc then Right else Left;
      AtDown(root, c, t, side);
      var next := pos.Kid(side);
      if next == null {
        return;
      }
      pos := next;
      c, t := Into(c, t, side), t.Kid(side);
    }
  }

  /** The two assertions at the end of `InsertNativeCodeBlock`. */
  predicate FitsNeighbours(b: BlockDesc)
    reads b, b.preBlock, b.nxtBlock
  {
    && (b.preBlock != null ==> b.sourceBase >= b.preBlock.sourceBase + b.preBlock.sourceSize)
    && (b.nxtBlock != null ==> b.nxtBlock.sourceBase >= b.sourceBase + b.sourceSize)
  }

  lemma FitDecides(b: BlockDesc, s: seq<BlockDesc>, s': seq<BlockDesc>, m: Links, first: BlockDesc?, last: BlockDesc?,
      k: nat)
    requires Linked(m, s', first, last) && Agree(m) && Put(s, s', k, b)
    ensures Disjoint(s) ==> (FitsNeighbours(b) <==> Disjoint(s'))
  {
    assert m[s'[k]] == Link(Prior(s', k), Later(s', k));
    if Disjoint(s) {
      NeighboursDecide(s, s', k, b);
    }
  }

  /** The node embedded in each block is in the tree. */
  ghost predicate Owned(blocks: set<BlockDesc>, nodes: set<BNode>)
    reads blocks`rbNode
  {
    forall b {:trigger b.rbNode} :: b in blocks ==> b.rbNode != null && b.rbNode in nodes && b.rbNode.entry == b
  }

  lemma OwnedMore(blocks: set<BlockDesc>, nodes: set<BNode>, b: BlockDesc)
    requires Owned(blocks, nodes) && b.rbNode != null && b.rbNode.entry == b
    ensures Owned(blocks + {b}, nodes + {b.rbNode})
  {
  }

  lemma OwnedLess(blocks: set<BlockDesc>, nodes: set<BNode>, b: BlockDesc)
    requires Owned(blocks, nodes) && b.rbNode != null && b.rbNode.entry == b
    ensures Owned(blocks - {b}, nodes - {b.rbNode})
  {
  }

  /** The blocks in order, and the memory the index takes. */
  datatype IndexView = IndexView(list: seq<BlockDesc>, repr: set<object>)

  class Index {
    const root: RbRoot<BlockDesc>
    var first: BlockDesc?
    var last: BlockDesc?
    ghost var blocks: seq<BlockDesc>
    ghost var links: Links
    ghost var repr: set<object>

    constructor ()
      ensures Shows() == Some(IndexView([], {this, root})) && fresh(root)
    {
      root := new RbRoot();
      first, last, blocks, links := null, null, [], map[];
      new;
      repr := {this, root};
      OpenShown(IndexView([], {this, root}));
    }

    /** Tree and list are the same sequence of blocks in order of their bases. */
    ghost predicate Consistent()
      reads `first, `last, `blocks, `links, root, root.nodes, links.Keys
    {
      forall k {:trigger Key(k)} :: Key(k) ==>
        && root.Valid() && Sorted(root.Items()) && Threaded(root.Items(), blocks)
        && Linked(links, blocks, first, last) && Agree(links)
    }

    lemma Open()
      ensures Consistent() <==>
        && root.Valid() && Sorted(root.Items()) && Threaded(root.Items(), blocks)
        && Linked(links, blocks, first, last) && Agree(links)
    {
      assert Key(0);
    }

    lemma SortedTree()
      requires Consistent()
      ensures root.Valid() && Sorted(root.Items())
    {
      Open();
    }

    ghost predicate Valid()
      reads `first, `last, `blocks, `links, root, root.nodes, links.Keys
    {
      Consistent() && Owned(links.Keys, root.nodes)
    }

    /** What the index holds, if it is well formed. */
    ghost function Shows(): Option<IndexView>
      reads this, repr
    {
      if this in repr && root in repr && root.nodes <= repr && links.Keys <= repr
        && forall k {:trigger Key(k)} :: Key(k) ==> Valid() && links.Keys == Members(blocks)
      then Some(IndexView(blocks, repr))
      else None
    }

    lemma OpenShown(v: IndexView)
      ensures Shows() == Some(v) <==>
        && this in repr && root in repr && root.nodes <= repr && links.Keys <= repr
        && Valid() && links.Keys == Members(blocks) && v == IndexView(blocks, repr)
    {
      assert Key(0);
    }

    /** The fields that hold the list. */
    lemma Neighbours(v: IndexView)
      requires Shows() == Some(v)
      ensures Ascending(v.list) && NoRepeats(v.list) && first == Later(v.list, -1)
      ensures forall k {:trigger v.list[k]} :: 0 <= k < |v.list| ==>
        v.list[k] in repr && v.list[k].preBlock == Prior(v.list, k) && v.list[k].nxtBlock == Later(v.list, k)
    {
      OpenShown(v);
      Orderly();
      Open();
      forall k | 0 <= k < |v.list|
        ensures v.list[k] in repr && v.list[k].preBlock == Prior(v.list, k) && v.list[k].nxtBlock == Later(v.list, k) {
        assert links[v.list[k]] == Link(Prior(v.list, k), Later(v.list, k));
      }
    }

    lemma Inside(v: IndexView)
      requires Shows() == Some(v)
      ensures forall b :: b in Members(v.list) ==> b in v.repr
    {
      OpenShown(v);
    }

    ghost method Reach(r: set<object>)
      requires Valid() && links.Keys == Members(blocks) && this in r && root in r && root.nodes <= r && links.Keys <= r
      modifies this`repr
      ensures Shows() == Some(IndexView(old(blocks), r))
    {
      repr := r;
      OpenShown(IndexView(blocks, r));
    }

    /** The list links of `InsertNativeCodeBlock`, to the right of `parentBlock`. */
    method LinkAfter(newblock: BlockDesc, parentBlock: BlockDesc, ghost m: Links)
      requires Agree(m) && newblock in m && parentBlock in m && newblock != parentBlock
      requires parentBlock.nxtBlock != null ==>
        parentBlock.nxtBlock in m && parentBlock.nxtBlock !in {newblock, parentBlock}
      modifies this`last, m.Keys`preBlock, m.Keys`nxtBlock
      ensures Agree(Between(m, parentBlock, newblock, m[parentBlock].nxt))
      ensures last == if m[parentBlock].nxt == null then newblock else old(last)
    {
      newblock.preBlock := parentBlock;
      newblock.nxtBlock := parentBlock.nxtBlock;
      parentBlock.nxtBlock := newblock;
      if newblock.nxtBlock != null {
        newblock.nxtBlock.preBlock := newblock;
      } else {
        last := newblock;
      }
    }

    /** The list links of `InsertNativeCodeBlock`, to the left of `parentBlock`. */
    method LinkBefore(newblock: BlockDesc, parentBlock: BlockDesc, ghost m: Links)
      requires Agree(m) && newblock in m && parentBlock in m && newblock != parentBlock
      requires parentBlock.preBlock != null ==>
        parentBlock.preBlock in m && parentBlock.preBlock !in {newblock, parentBlock}
      modifies this`first, m.Keys`preBlock, m.Keys`nxtBlock
      ensures Agree(Between(m, m[parentBlock].pre, newblock, parentBlock))
      ensures first == if m[parentBlock].pre == null then newblock else old(first)
    {
      newblock.nxtBlock := parentBlock;
      newblock.preBlock := parentBlock.preBlock;
      parentBlock.preBlock := newblock;
      if newblock.preBlock != null {
        newblock.preBlock.nxtBlock := newblock;
      } else {
        first := newblock;
      }
    }

    /** The list part of `InsertNativeCodeBlock`: `newblock` goes between `p` and `n`, one of which is `parent`. */
    method Thread(newblock: BlockDesc, parent: BlockDesc?, side: Side, ghost p: BlockDesc?, ghost n: BlockDesc?,
        ghost m: Links)
      requires Agree(m) && newblock in m && Around(m, p, newblock, n)
      requires if parent == null then p == null && n == null && m[newblock] == Link(null, null)
        else parent == if side.Right? then p else n
      modifies this`first, this`last, m.Keys`preBlock, m.Keys`nxtBlock
      ensures Agree(Between(m, p, newblock, n))
      ensures first == (if p == null then newblock else old(first))
        && last == (if n == null then newblock else old(last))
    {
      if parent == null {
        first, last := newblock, newblock;
      } else if side.Right? {
        LinkAfter(newblock, parent, m);
      } else {
        LinkBefore(newblock, parent, m);
      }
    }

    /** The list part as the index sees it. */
    method Place(newblock: BlockDesc, parent: BlockDesc?, side: Side, ghost p: BlockDesc?, ghost n: BlockDesc?,
        ghost b: seq<BlockDesc>)
      requires root.Valid() && Agree(links) && newblock !in links && Around(links, p, newblock, n)
      requires newblock.preBlock == null && newblock.nxtBlock == null
      requires if parent == null then p == null && n == null else parent == if side.Right? then p else n
      modifies this`first, this`last, this`blocks, this`links, newblock`preBlock, newblock`nxtBlock,
        links.Keys`preBlock, links.Keys`nxtBlock
      ensures root.Valid() && links == Between(old(links), p, newblock, n) && Agree(links) && blocks == b
      ensures first == (if p == null then newblock else old(first))
        && last == (if n == null then newblock else old(last))
    {
      ghost var m := links[newblock := Link(null, null)];
      assert Between(m, p, newblock, n) == Between(links, p, newblock, n);
      Thread(newblock, parent, side, p, n, m);
      blocks, links := b, Between(links, p, newblock, n);
    }

    /** The tree part as the index sees it. */
    method Hang(node: BNode, parent: RbNode?<BlockDesc>, side: Side, ghost c: Ctx<BNode>)
      requires root.Valid() && root.tree == Zip(c, Leaf) && parent == Par(c) && (c.Frame? ==> side == c.side)
      requires node !in root.nodes && Agree(links)
      modifies root, root.nodes, node
      ensures root.Valid() && root.nodes == old(root.nodes) + {node} && root.Items() == Before(c) + [node] + After(c)
        && Agree(links)
    {
      RbOps.Insert(node, parent, side, root, c);
    }

    /** The new block goes into the tree, at the empty slot `c`, and into the list, between `p` and `n`. */
    method InsertAt(newblock: BlockDesc, node: BNode, parent: RbNode?<BlockDesc>, side: Side, ghost c: Ctx<BNode>,
                    ghost p: BlockDesc?, ghost n: BlockDesc?, ghost b: seq<BlockDesc>)
      requires root.Valid() && Agree(links) && newblock !in links && newblock.preBlock == null
        && newblock.nxtBlock == null
      requires node !in root.nodes && root.tree == Zip(c, Leaf) && parent == Par(c) && (c.Frame? ==> side == c.side)
      requires Around(links, p, newblock, n)
      requires if parent == null then p == null && n == null else parent.entry == if side.Right? then p else n
      modifies this`first, this`last, this`blocks, this`links, root, root.nodes, node, newblock`preBlock,
        newblock`nxtBlock, links.Keys`preBlock, links.Keys`nxtBlock
      ensures root.Valid() && root.nodes == old(root.nodes) + {node} && root.Items() == Before(c) + [node] + After(c)
      ensures links == Between(old(links), p, newblock, n) && Agree(links) && blocks == b
      ensures first == (if p == null then newblock else old(first))
        && last == (if n == null then newblock else old(last))
    {
      Hang(node, parent, side, c);
      Place(newblock, if parent == null then null else parent.entry, side, p, n, b);
    }

    /** `ok` is the truth of the two assertions at the end of `InsertNativeCodeBlock`. */
    method InsertFound(newblock: BlockDesc, node: BNode, parent: RbNode?<BlockDesc>, side: Side, ghost c: Ctx<BNode>)
        returns (ok: bool, ghost k: nat)
      requires Consistent() && newblock !in links && newblock.preBlock == null && newblock.nxtBlock == null
      requires node.entry == newblock && node !in root.nodes
      requires root.tree == Zip(c, Leaf) && parent == Par(c) && (c.Frame? ==> side == c.side)
      requires root.Items() == Before(c) + After(c) && AllBelow(Before(c), Base(node)) && AllFrom(After(c), Base(node))
      modifies this`first, this`last, this`blocks, this`links, root, root.nodes, node, newblock`preBlock,
        newblock`nxtBlock, links.Keys`preBlock, links.Keys`nxtBlock
      ensures Consistent() && root.nodes == old(root.nodes) + {node} && links.Keys == old(links).Keys + {newblock}
      ensures Put(old(blocks), blocks, k, newblock)
      ensures Disjoint(old(blocks)) ==> (ok <==> Disjoint(blocks))
    {
      Open();
      ghost var b, p, n;
      k, b, p, n := SlotFacts(root.Items(), blocks, links, first, last, c, node);
      InsertAt(newblock, node, parent, side, c, p, n, b);
      FitDecides(newblock, old(blocks), blocks, links, first, last, k);
      ok := FitsNeighbours(newblock);
    }

    /** The search for the empty slot, as the index sees it. */
    method SlotFor(base: nat) returns (parent: RbNode?<BlockDesc>, side: Side, ghost c: Ctx<BNode>)
      requires Consistent()
      ensures Consistent() && root.tree == Zip(c, Leaf) && parent == Par(c) && (c.Frame? ==> side == c.side)
      ensures root.Items() == Before(c) + After(c) && AllBelow(Before(c), base) && AllFrom(After(c), base)
    {
      SortedTree();
      parent, side, c := FindSlot(root, base);
    }

    method InsertBlock(newblock: BlockDesc, node: BNode) returns (ok: bool, ghost k: nat)
      requires Consistent() && newblock !in links && newblock.preBlock == null && newblock.nxtBlock == null
      requires node.entry == newblock && node !in root.nodes
      modifies this`first, this`last, this`blocks, this`links, root, root.nodes, node, newblock`preBlock,
        newblock`nxtBlock, links.Keys`preBlock, links.Keys`nxtBlock
      ensures Consistent() && root.nodes == old(root.nodes) + {node} && links.Keys == old(links).Keys + {newblock}
      ensures Put(old(blocks), blocks, k, newblock)
      ensures Disjoint(old(blocks)) ==> (ok <==> Disjoint(blocks))
    {
      var parent, side;
      ghost var c;
      parent, side, c := SlotFor(newblock.sourceBase);
      ok, k := InsertFound(newblock, node, parent, side, c);
    }

    method InsertNativeCodeBlock(newblock: BlockDesc) returns (ok: bool)
      requires Valid() && newblock !in links && newblock.preBlock == null && newblock.nxtBlock == null
      requires newblock.rbNode != null && newblock.rbNode.entry == newblock && newblock.rbNode !in root.nodes
      modifies this`first, this`last, this`blocks, this`links, root, root.nodes, newblock.rbNode, newblock`preBlock,
        newblock`nxtBlock, links.Keys`preBlock, links.Keys`nxtBlock
      ensures Valid() && root.nodes == old(root.nodes) + {newblock.rbNode} && links.Keys == old(links).Keys + {newblock}
      ensures exists k :: Put(old(blocks), blocks, k, newblock)
      ensures Disjoint(old(blocks)) ==> (ok <==> Disjoint(blocks))
    {
      ghost var keys, nodes := links.Keys, root.nodes;
      ghost var k: nat;
      ok, k := InsertBlock(newblock, newblock.rbNode);
      assert Owned(keys, nodes);
      OwnedMore(keys, nodes, newblock);
    }

    method FindTargetBlock(spc: nat) returns (r: BlockDesc?)
      requires Valid()
      ensures IsTarget(blocks, spc, r)
    {
      Open();
      if root.node == null {
        root.Open();
        return null;
      }
      ghost var c, t;
      var pos;
      pos, c, t := DescendFor(root, spc);
      if pos.entry.sourceBase == spc {
        Member(c, t);
        TargetHit(root.Items(), blocks, pos, spc);
        r := pos.entry;
      } else if pos.entry.sourceBase < spc {
        EndsRight(root.Items(), blocks, c, t, spc);
        r := pos.entry;
      } else {
        EndsLeft(root.Items(), blocks, c, t, spc);
        assert links[blocks[|Before(c)|]] == Link(Prior(blocks, |Before(c)|), Later(blocks, |Before(c)|));
        r := pos.entry.preBlock;
      }
    }

    /** The list links of `DeleteNativeCodeBlock`. */
    method Bypass(block: BlockDesc, ghost m: Links)
      requires Agree(m) && block in m && Flanked(m, block)
      modifies this`first, this`last, m.Keys`preBlock, m.Keys`nxtBlock
      ensures Agree(Joined(m, m[block].pre, block, m[block].nxt))
      ensures first == (if m[block].pre == null then m[block].nxt else old(first))
      ensures last == if m[block].nxt == null then m[block].pre else old(last)
    {
      if block.preBlock != null {
        block.preBlock.nxtBlock := block.nxtBlock;
      } else {
        first := block.nxtBlock;
      }
      if block.nxtBlock != null {
        block.nxtBlock.preBlock := block.preBlock;
      } else {
        last := block.preBlock;
      }
    }

    /** The list part as the index sees it. */
    method Unthread(block: BlockDesc, ghost b: seq<BlockDesc>)
      requires root.Valid() && Agree(links) && block in links && Flanked(links, block)
      modifies this`first, this`last, this`blocks, this`links, links.Keys`preBlock, links.Keys`nxtBlock
      ensures root.Valid() && Agree(links) && blocks == b
      ensures var p, n := old(block.preBlock), old(block.nxtBlock);
        && links == Joined(old(links), p, block, n)
        && first == (if p == null then n else old(first)) && last == if n == null then p else old(last)
    {
      ghost var p, n := block.preBlock, block.nxtBlock;
      Bypass(block, links);
      blocks, links := b, Joined(links, p, block, n);
    }

    /** The tree part of `DeleteNativeCodeBlock`. */
    method Unhang(node: BNode)
      requires root.Valid() && node in root.nodes && Agree(links)
      modifies root, root.nodes
      ensures root.Valid() && root.nodes == old(root.nodes) - {node} && Agree(links)
      ensures root.Items() == old(Preceding(root.Items(), node) + Following(root.Items(), node))
    {
      RbOps.Remove(node, root);
    }

    method UnlinkNode(block: BlockDesc, node: BNode)
      requires Consistent() && node.entry == block && node in root.nodes
      modifies this`first, this`last, this`blocks, this`links, root, root.nodes, links.Keys`preBlock,
        links.Keys`nxtBlock
      ensures Consistent() && root.nodes == old(root.nodes) - {node} && links.Keys == old(links).Keys - {block}
      ensures exists k :: Put(blocks, old(blocks), k, block)
    {
      Open();
      root.Open();
      SeqNodes(root.tree, node);
      ghost var k, b := TakeFacts(root.Items(), blocks, links, first, last, node);
      Unhang(node);
      Unthread(block, b);
    }

    /** The end of `DeleteNativeCodeBlock`: the block leaves the list and the tree. */
    method Unlink(block: BlockDesc)
      requires Valid() && block in links
      modifies this`first, this`last, this`blocks, this`links, root, root.nodes, links.Keys`preBlock,
        links.Keys`nxtBlock
      ensures Valid() && root.nodes == old(root.nodes) - {block.rbNode} && links.Keys == old(links).Keys - {block}
      ensures exists k :: Put(blocks, old(blocks), k, block)
    {
      ghost var keys, nodes := links.Keys, root.nodes;
      assert block.rbNode != null;
      OwnedLess(keys, nodes, block);
      UnlinkNode(block, block.rbNode);
      assert Owned(keys - {block}, nodes - {block.rbNode});
    }

    /** `InsertNativeCodeBlock` in terms of what the index shows. */
    method Insert(newblock: BlockDesc, ghost v: IndexView) returns (ok: bool, ghost w: IndexView)
      requires Shows() == Some(v) && newblock !in v.repr && newblock.preBlock == null && newblock.nxtBlock == null
      requires newblock.rbNode != null && newblock.rbNode.entry == newblock && newblock.rbNode !in v.repr
      modifies this, v.repr, newblock.rbNode, newblock`preBlock, newblock`nxtBlock
      ensures Shows() == Some(w) && w.repr == v.repr + {newblock, newblock.rbNode}
      ensures Ascending(v.list) && NoRepeats(v.list) && Ascending(w.list)
      ensures (exists k :: Put(v.list, w.list, k, newblock)) && Members(w.list) == Members(v.list) + {newblock}
      ensures Disjoint(v.list) ==> (ok <==> Disjoint(w.list))
    {
      OpenShown(v);
      Orderly();
      ghost var r: set<object> := repr + {newblock, newblock.rbNode};
      ok := InsertNativeCodeBlock(newblock);
      w := IndexView(blocks, r);
      ghost var k :| Put(v.list, w.list, k, newblock);
      PutMembers(v.list, w.list, k, newblock);
      Orderly();
      Reach(r);
    }

    /** `Unlink` in terms of what the index shows. */
    method Remove(block: BlockDesc, ghost v: IndexView) returns (ghost w: IndexView)
      requires Shows() == Some(v) && block in Members(v.list)
      modifies this, v.repr
      ensures Shows() == Some(w) && w.repr == v.repr
      ensures (exists k :: Put(w.list, v.list, k, block)) && NoRepeats(v.list)
        && Members(w.list) == Members(v.list) - {block}
    {
      OpenShown(v);
      Orderly();
      Unlink(block);
      w := IndexView(blocks, repr);
      ghost var k :| Put(w.list, v.list, k, block);
      UnputFacts(w.list, v.list, k, block);
      Reach(repr);
    }

    /** `FindTargetBlock` in terms of what the index shows. */
    method Find(spc: nat, ghost v: IndexView) returns (r: BlockDesc?)
      requires Shows() == Some(v)
      ensures IsTarget(v.list, spc, r)
    {
      OpenShown(v);
      r := FindTargetBlock(spc);
    }

    lemma Orderly()
      requires Valid()
      ensures Ascending(blocks) && NoRepeats(blocks)
    {
      Open();
      ThreadedAscending(root.Items(), blocks);
    }
  }

  lemma SlotFacts(items: seq<BNode>, s: seq<BlockDesc>, m: Links, first: BlockDesc?, last: BlockDesc?, c: Ctx<BNode>,
      node: BNode)
      returns (k: nat, s': seq<BlockDesc>, p: BlockDesc?, n: BlockDesc?)
    requires Sorted(items) && Threaded(items, s) && Linked(m, s, first, last) && items == Before(c) + After(c)
    requires AllBelow(Before(c), Base(node)) && AllFrom(After(c), Base(node)) && node.entry !in m
    ensures Put(s, s', k, node.entry) && p == Prior(s, k) && n == Later(s, k - 1)
    ensures Sorted(Before(c) + [node] + After(c)) && Threaded(Before(c) + [node] + After(c), s')
    ensures Linked(Between(m, p, node.entry, n), s', if p == null then node.entry else first,
      if n == null then node.entry else last)
    ensures Around(m, p, node.entry, n)
    ensures if c.Top? then p == null && n == null else c.n.entry == if c.side.Right? then p else n
  {
    k := |Before(c)|;
    s', p, n := s[..k] + [node.entry] + s[k..], Prior(s, k), Later(s, k - 1);
    PutItems(items, s, Before(c), node, After(c));
    SortedInsert(Before(c), node, After(c));
    PutLinked(m, s, s', first, last, k, node.entry);
    if c.Frame? {
      SlotNeighbours(c, items);
    }
  }

  lemma TakeFacts(items: seq<BNode>, s: seq<BlockDesc>, m: Links, first: BlockDesc?, last: BlockDesc?, node: BNode)
    returns (k: nat, s': seq<BlockDesc>)
    requires Sorted(items) && Threaded(items, s) && Linked(m, s, first, last) && node in items
    ensures Put(s', s, k, node.entry) && node.entry in m && Flanked(m, node.entry)
    ensures var items' := Preceding(items, node) + Following(items, node); Sorted(items') && Threaded(items', s')
    ensures var p, n := m[node.entry].pre, m[node.entry].nxt;
      Linked(Joined(m, p, node.entry, n), s', if p == null then n else first, if n == null then p else last)
  {
    var a, b := Preceding(items, node), Following(items, node);
    SplitAt(items, node);
    SortedRemove(a, node, b);
    k := |a|;
    s' := s[..k] + s[k + 1..];
    assert items[k] == node && s[k] == node.entry;
    TakeItems(items, s, a, node, b);
    TakeLinked(m, s, s', first, last, k);
  }

  lemma TakeItems(items: seq<BNode>, s: seq<BlockDesc>, a: seq<BNode>, node: BNode, b: seq<BNode>)
    requires Threaded(items, s) && items == a + [node] + b
    ensures Threaded(a + b, s[..|a|] + s[|a| + 1..]) && Put(s[..|a|] + s[|a| + 1..], s, |a|, node.entry)
  {
    var k := |a|;
    assert s[k] == items[k].entry;
    forall i | 0 <= i < |a + b| ensures (a + b)[i].entry == (s[..k] + s[k + 1..])[i] {
      assert items[if i < k then i else i + 1] == (a + b)[i];
    }
  }
}
