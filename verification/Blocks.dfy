/** Translated blocks and the order the trees of src/NativeCodeBlock.c keep them in. */
module Blocks {
  import opened RbShape
  import opened RbMemory

  /** `NativeCodeBlockDesc`: the part that places a block in the index. */
  class BlockDesc {
    const sourceBase: nat
    const sourceSize: nat
    var rbNode: RbNode?<BlockDesc>
    var preBlock: BlockDesc?
    var nxtBlock: BlockDesc?

    constructor (base: nat, size: nat)
      ensures sourceBase == base && sourceSize == size
      ensures rbNode != null && fresh(rbNode) && rbNode.entry == this
      ensures preBlock == null && nxtBlock == null
    {
      sourceBase, sourceSize := base, size;
      rbNode, preBlock, nxtBlock := null, null, null;
      new;
      rbNode := new RbNode(this);
    }

    function End(): nat {
      sourceBase + sourceSize
    }
  }

  type BNode = RbNode<BlockDesc>

  ghost function Base(n: BNode): nat {
    n.entry.sourceBase
  }

  /** The keys do not decrease. */
  ghost predicate Sorted(s: seq<BNode>) {
    forall i, j :: 0 <= i < j < |s| ==> Base(s[i]) <= Base(s[j])
  }

  ghost predicate AllBelow(s: seq<BNode>, k: nat) {
    forall i :: 0 <= i < |s| ==> Base(s[i]) < k
  }

  ghost predicate AllFrom(s: seq<BNode>, k: nat) {
    forall i :: 0 <= i < |s| ==> k <= Base(s[i])
  }

  lemma SortedAround(a: seq<BNode>, x: BNode, b: seq<BNode>, k: nat)
    requires Sorted(a + [x] + b)
    ensures Base(x) < k ==> AllBelow(a + [x], k)
    ensures k <= Base(x) ==> AllFrom([x] + b, k)
  {
    var s := a + [x] + b;
    assert s[|a|] == x;
    assert a + [x] == s[..|a| + 1];
    assert [x] + b == s[|a|..];
  }

  /** Going right at `t` puts the node and its left subtree below the key; going left puts the rest at or above it. */
  lemma Descend(c: Ctx<BNode>, t: Tree<BNode>, k: nat)
    requires t.Node? && Sorted(Seq(Zip(c, t)))
    ensures Base(t.n) < k ==> AllBelow(Before(Into(c, t, Right)), k) && After(Into(c, t, Right)) == After(c)
    ensures k <= Base(t.n) ==> AllFrom(After(Into(c, t, Left)), k) && Before(Into(c, t, Left)) == Before(c)
  {
    ZipSeq(c, t);
    Regroup(Before(c), Seq(t.left), t.n, Seq(t.right), After(c));
    SortedAround(Before(c) + Seq(t.left), t.n, Seq(t.right) + After(c), k);
  }

  lemma SortedInsert(a: seq<BNode>, x: BNode, b: seq<BNode>)
    requires Sorted(a + b) && AllBelow(a, Base(x)) && AllFrom(b, Base(x))
    ensures Sorted(a + [x] + b)
  {
    var s := a + [x] + b;
    forall i, j | 0 <= i < j < |s| ensures Base(s[i]) <= Base(s[j]) {
      if i < |a| < j {
        assert (a + b)[i] == s[i] && (a + b)[j - 1] == s[j];
      } else if j < |a| {
        assert (a + b)[i] == s[i] && (a + b)[j] == s[j];
      } else if i > |a| {
        assert (a + b)[i - 1] == s[i] && (a + b)[j - 1] == s[j];
      }
    }
  }

  lemma SortedRemove(a: seq<BNode>, x: BNode, b: seq<BNode>)
    requires Sorted(a + [x] + b)
    ensures Sorted(a + b)
  {
    var s := a + [x] + b;
    forall i, j | 0 <= i < j < |a + b| ensures Base((a + b)[i]) <= Base((a + b)[j]) {
      assert (a + b)[i] == s[if i < |a| then i else i + 1];
      assert (a + b)[j] == s[if j < |a| then j else j + 1];
    }
  }

  lemma Member<N>(c: Ctx<N>, t: Tree<N>)
    requires t.Node?
    ensures t.n in Seq(Zip(c, t))
  {
    ZipSeq(c, t);
  }
}
