/** The back-reference set of a block: `AddToRefSet` and `DeleteFromRefSet` of src/NativeCodeBlock.c. */
module RefSets {
  import opened RbShape
  import opened RbMemory
  import opened RbTree
  import opened RbOps
  import opened RbTraverse
  import opened Blocks

  ghost predicate Strict(s: seq<BNode>) {
    forall i, j :: 0 <= i < j < |s| ==> Base(s[i]) < Base(s[j])
  }

  ghost function Entries(s: seq<BNode>): set<BlockDesc> {
    set n | n in s :: n.entry
  }

  /** The blocks that can be members together: different blocks have different bases. */
  ghost predicate OwnBase(b: BlockDesc, others: set<BlockDesc>) {
    forall o :: o in others && o.sourceBase == b.sourceBase ==> o == b
  }

  lemma {:induction false} StrictSize(s: seq<BNode>)
    requires Strict(s)
    ensures |Entries(s)| == |s|
  {
    if s != [] {
      var r, x := s[..|s| - 1], s[|s| - 1];
      StrictSize(r);
      assert Entries(s) == Entries(r) + {x.entry};
    }
  }

  lemma StrictSorted(s: seq<BNode>)
    requires Strict(s)
    ensures Sorted(s)
  {
  }

  lemma StrictInsert(a: seq<BNode>, x: BNode, b: seq<BNode>)
    requires Strict(a + b) && AllBelow(a, Base(x)) && AllFrom(b, Base(x) + 1)
    ensures Strict(a + [x] + b) && Entries(a + [x] + b) == Entries(a + b) + {x.entry}
  {
    var s := a + [x] + b;
    forall i, j | 0 <= i < j < |s| ensures Base(s[i]) < Base(s[j]) {
      assert i != |a| ==> (a + b)[if i < |a| then i else i - 1] == s[i];
      assert j != |a| ==> (a + b)[if j < |a| then j else j - 1] == s[j];
    }
  }

  lemma StrictRemove(a: seq<BNode>, x: BNode, b: seq<BNode>)
    requires Strict(a + [x] + b)
    ensures Strict(a + b) && Entries(a + b) == Entries(a + [x] + b) - {x.entry}
  {
    var s := a + [x] + b;
    assert s[|a|] == x;
    forall i | 0 <= i < |a + b| ensures (a + b)[i] == s[if i < |a| then i else i + 1] && (a + b)[i].entry != x.entry {
    }
    forall n | n in s && n != x ensures n in a + b {
    }
  }

  class RefSet {
    const treeRoot: RbRoot<BlockDesc>
    var refCnt: nat

    constructor ()
      ensures Valid() && Refs() == {} && fresh(treeRoot) && treeRoot.nodes == {}
    {
      treeRoot := new RbRoot();
      refCnt := 0;
    }

    ghost predicate Valid()
      reads `refCnt, treeRoot`node, treeRoot`tree, treeRoot`nodes, treeRoot.nodes`parent, treeRoot.nodes`color,
        treeRoot.nodes`left, treeRoot.nodes`right
    {
      treeRoot.Valid() && Strict(treeRoot.Items()) && refCnt == |treeRoot.Items()|
    }

    ghost function Refs(): set<BlockDesc>
      reads treeRoot`tree
    {
      Entries(treeRoot.Items())
    }

    /** The descent both operations make: the member's node, or the empty slot where it belongs. */
    method Search(ref: BlockDesc)
        returns (hit: RbNode?<BlockDesc>, parent: RbNode?<BlockDesc>, side: Side, ghost c: Ctx<BNode>)
      requires Valid() && OwnBase(ref, Refs())
      ensures hit != null ==> hit in treeRoot.nodes && hit.entry == ref && ref in Refs()
      ensures hit == null ==>
        && ref !in Refs() && Zip(c, Leaf) == treeRoot.tree && parent == Par(c) && (c.Frame? ==> side == c.side)
        && AllBelow(Before(c), ref.sourceBase) && AllFrom(After(c), ref.sourceBase + 1)
    {
      var k := ref.sourceBase;
      var pos := treeRoot.node;
      parent, side := null, Left;
      c := Top;
      ghost var t := treeRoot.tree;
      StrictSorted(treeRoot.Items());
      treeRoot.Open();
      while pos != null
        invariant Zip(c, t) == treeRoot.tree && At(treeRoot, c, t) && pos == Ptr(t) && parent == Par(c)
        invariant c.Frame? ==> side == c.side
        invariant AllBelow(Before(c), k) && AllFrom(After(c), k + 1)
        decreases t
      {
        Member(c, t);
        assert pos.entry in Refs();
        if pos.entry == ref {
          SeqNodes(treeRoot.tree, pos);
          return pos, null, Left, c;
        }
        Descend(c, t, k);
        Descend(c, t, k + 1);
        parent := pos;
        if pos.entry.sourceBase < k {
          AtDown(treeRoot, c, t, Right);
          pos, side := pos.right, Right;
        } else {
          AtDown(treeRoot, c, t, Left);
          pos, side := pos.left, Left;
        }
        c, t := Into(c, t, side), t.Kid(side);
      }
      ZipSeq(c, Leaf);
      hit := null;
    }

    /** The new node goes into the empty slot of `c`. */
    method Hang(refNode: BNode, parent: RbNode?<BlockDesc>, side: Side, ghost c: Ctx<BNode>)
      requires treeRoot.Valid() && treeRoot.tree == Zip(c, Leaf) && parent == Par(c) && (c.Frame? ==> side == c.side)
      requires Strict(treeRoot.Items()) && AllBelow(Before(c), Base(refNode)) && AllFrom(After(c), Base(refNode) + 1)
      requires refNode !in treeRoot.nodes
      modifies treeRoot, treeRoot.nodes, refNode
      ensures treeRoot.Valid() && treeRoot.nodes == old(treeRoot.nodes) + {refNode} && Strict(treeRoot.Items())
      ensures Refs() == old(Refs()) + {refNode.entry} && |treeRoot.Items()| == |old(treeRoot.Items())| + 1
    {
      ZipSeq(c, Leaf);
      assert treeRoot.Items() == Before(c) + After(c);
      StrictInsert(Before(c), refNode, After(c));
      RbOps.Insert(refNode, parent, side, treeRoot, c);
    }

    method AddToRefSet(refToAdd: BlockDesc)
      requires Valid() && OwnBase(refToAdd, Refs())
      modifies this`refCnt, treeRoot, treeRoot.nodes
      ensures Valid() && Refs() == old(Refs()) + {refToAdd}
      ensures fresh(treeRoot.nodes - old(treeRoot.nodes))
    {
      var hit, parent, side;
      ghost var c;
      hit, parent, side, c := Search(refToAdd);
      if hit == null {
        var refNode := new RbNode(refToAdd);
        Hang(refNode, parent, side, c);
        refCnt := refCnt + 1;
      }
    }

    /** The members in the order in which the walk with the explicit stack meets them. */
    method Walk() returns (order: seq<BlockDesc>)
      requires Valid() && |Refs()| < 0x1_0000_0000
      ensures EachOnce(order, Refs())
    {
      StrictSize(treeRoot.Items());
      var visited := Traverse(treeRoot);
      VisitsEachOnce(treeRoot.tree);
      ReorderedOnce(treeRoot.Items(), visited);
      order := EntriesOf(visited);
    }

    method Drop(node: BNode)
      requires Valid() && node in treeRoot.nodes
      modifies this`refCnt, treeRoot, treeRoot.nodes
      ensures Valid() && Refs() == old(Refs()) - {node.entry} && treeRoot.nodes <= old(treeRoot.nodes)
    {
      ghost var items := treeRoot.Items();
      treeRoot.Open();
      SeqNodes(treeRoot.tree, node);
      SplitAt(items, node);
      StrictRemove(Preceding(items, node), node, Following(items, node));
      RbOps.Remove(node, treeRoot);
      refCnt := refCnt - 1;
    }

    /** `found` is false where the C code reaches `assert(0)`. */
    method DeleteFromRefSet(refToDelete: BlockDesc) returns (found: bool)
      requires Valid() && OwnBase(refToDelete, Refs())
      modifies this`refCnt, treeRoot, treeRoot.nodes
      ensures Valid() && Refs() == old(Refs()) - {refToDelete} && treeRoot.nodes <= old(treeRoot.nodes)
      ensures found <==> refToDelete in old(Refs())
    {
      var hit, parent, side;
      ghost var c;
      hit, parent, side, c := Search(refToDelete);
      found := hit != null;
      if found {
        Drop(hit);
      }
    }
  }

  /** The entries of `order` are the members of `refs`, each once. */
  ghost predicate EachOnce(order: seq<BlockDesc>, refs: set<BlockDesc>) {
    (set b | b in order) == refs && forall i, j :: 0 <= i < j < |order| ==> order[i] != order[j]
  }

  function EntriesOf(nodes: seq<BNode>): (r: seq<BlockDesc>)
    ensures |r| == |nodes| && forall i :: 0 <= i < |nodes| ==> r[i] == nodes[i].entry
  {
    if nodes == [] then [] else EntriesOf(nodes[..|nodes| - 1]) + [nodes[|nodes| - 1].entry]
  }

  /** A node that stands at two places counts twice. */
  lemma CountTwice<N>(s: seq<N>, i: nat, j: nat)
    requires i < j < |s| && s[i] == s[j]
    ensures multiset(s)[s[i]] >= 2
  {
    assert s == s[..j] + s[j..];
    assert s[i] in s[..j] && s[j] in s[j..];
  }

  lemma {:induction false} CountOnce<N>(s: seq<N>, x: N)
    requires forall i, j :: 0 <= i < j < |s| ==> s[i] != s[j]
    ensures multiset(s)[x] <= 1
  {
    if s != [] {
      CountOnce(s[..|s| - 1], x);
      assert s == s[..|s| - 1] + [s[|s| - 1]];
      assert s[|s| - 1] !in s[..|s| - 1];
    }
  }

  /** The members of the set in another order. */
  lemma ReorderedOnce(items: seq<BNode>, order: seq<BNode>)
    requires Strict(items) && multiset(order) == multiset(items)
    ensures EachOnce(EntriesOf(order), Entries(items))
  {
    forall n | n in items + order ensures n in items && n in order {
      assert n in items <==> n in multiset(items);
      assert n in order <==> n in multiset(order);
    }
    forall b | b in Entries(items) ensures b in EntriesOf(order) {
      var n :| n in items && n.entry == b;
      var i :| 0 <= i < |order| && order[i] == n;
      assert EntriesOf(order)[i] == b;
    }
    forall i, j | 0 <= i < j < |order| ensures order[i].entry != order[j].entry {
      SameEntry(items, order[i], order[j]);
      if order[i] == order[j] {
        CountTwice(order, i, j);
        CountOnce(items, order[i]);
      }
    }
  }

  lemma SameEntry(items: seq<BNode>, n: BNode, m: BNode)
    requires Strict(items) && n in items && m in items
    ensures n.entry == m.entry ==> n == m
  {
    var i :| 0 <= i < |items| && items[i] == n;
    var j :| 0 <= j < |items| && items[j] == m;
    assert i < j ==> Base(items[i]) < Base(items[j]);
    assert j < i ==> Base(items[j]) < Base(items[i]);
  }

  /** The count kept beside the tree is the size of the set. */
  lemma CountIsSize(s: RefSet)
    requires s.Valid()
    ensures s.refCnt == |s.Refs()|
  {
    StrictSize(s.treeRoot.Items());
  }
}
