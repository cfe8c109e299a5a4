/** The relocations collected while a block is translated, in a tree threaded by a doubly linked list:
    `InsertTempReloc` of src/NativeCodeBlock.c. */
module TempRelocs {
  import opened RbShape
  import opened RbMemory
  import opened RbTree
  import opened RbOps

  /** `TempRelocEntry`. */
  class TempReloc {
    const i0Addr: nat
    const nativeAddr: nat
    var treeNode: RbNode?<TempReloc>
    var prev: TempReloc?
    var next: TempReloc?

    constructor (i0: nat, native: nat)
      ensures i0Addr == i0 && nativeAddr == native
      ensures treeNode != null && fresh(treeNode) && treeNode.entry == this
    {
      i0Addr, nativeAddr := i0, native;
      treeNode, prev, next := null, null, null;
      new;
      treeNode := new RbNode(this);
    }
  }

  type RNode = RbNode<TempReloc>

  predicate Above(a: TempReloc, b: TempReloc) {
    a.i0Addr > b.i0Addr || (a.i0Addr == b.i0Addr && a.nativeAddr > b.nativeAddr)
  }

  ghost predicate InOrder(s: seq<RNode>) {
    forall i, j :: 0 <= i < j < |s| ==> !Above(s[i].entry, s[j].entry)
  }

  ghost predicate NoneAbove(s: seq<RNode>, e: TempReloc) { forall i :: 0 <= i < |s| ==> !Above(s[i].entry, e) }

  ghost predicate EachAbove(s: seq<RNode>, e: TempReloc) { forall i :: 0 <= i < |s| ==> Above(s[i].entry, e) }

  lemma OrderAround(a: seq<RNode>, x: RNode, b: seq<RNode>, e: TempReloc)
    requires InOrder(a + [x] + b)
    ensures !Above(x.entry, e) ==> NoneAbove(a + [x], e)
    ensures Above(x.entry, e) ==> EachAbove([x] + b, e)
  {
    var s := a + [x] + b;
    assert s[|a|] == x;
    assert a + [x] == s[..|a| + 1];
    assert [x] + b == s[|a|..];
  }

  /** Going right at `t` leaves behind what is not above the new entry, going left what is. */
  lemma DescendOrder(c: Ctx<RNode>, t: Tree<RNode>, e: TempReloc)
    requires t.Node? && InOrder(Seq(Zip(c, t)))
    ensures !Above(t.n.entry, e) ==> NoneAbove(Before(Into(c, t, Right)), e) && After(Into(c, t, Right)) == After(c)
    ensures Above(t.n.entry, e) ==> EachAbove(After(Into(c, t, Left)), e) && Before(Into(c, t, Left)) == Before(c)
  {
    ZipSeq(c, t);
    Regroup(Before(c), Seq(t.left), t.n, Seq(t.right), After(c));
    OrderAround(Before(c) + Seq(t.left), t.n, Seq(t.right) + After(c), e);
  }

  lemma InsertOrder(a: seq<RNode>, x: RNode, b: seq<RNode>)
    requires InOrder(a + b) && NoneAbove(a, x.entry) && EachAbove(b, x.entry)
    ensures InOrder(a + [x] + b)
  {
    var s := a + [x] + b;
    forall i, j | 0 <= i < j < |s| ensures !Above(s[i].entry, s[j].entry) {
      assert i != |a| ==> (a + b)[if i < |a| then i else i - 1] == s[i];
      assert j != |a| ==> (a + b)[if j < |a| then j else j - 1] == s[j];
    }
  }

  /** The list with the new entry at place `k`. */
  ghost function With(s: seq<TempReloc>, k: nat, x: TempReloc): (r: seq<TempReloc>)
    requires k <= |s|
    ensures |r| == |s| + 1 && r[k] == x
    ensures forall i {:trigger r[i]} :: 0 <= i < |r| && i != k ==> r[i] == s[if i < k then i else i - 1]
  {
    s[..k] + [x] + s[k..]
  }

  /** The links of the entries form the list `s`. */
  ghost predicate Chained(s: seq<TempReloc>, head: TempReloc?, tail: TempReloc?)
    reads s`prev, s`next
  {
    && (forall i, j :: 0 <= i < j < |s| ==> s[i] != s[j])
    && head == (if s == [] then null else s[0]) && tail == (if s == [] then null else s[|s| - 1])
    && (forall i {:trigger s[i].prev} :: 0 <= i < |s| ==> s[i].prev == if i == 0 then null else s[i - 1])
    && forall i {:trigger s[i].next} :: 0 <= i < |s| ==> s[i].next == if i + 1 == |s| then null else s[i + 1]
  }

  /** The slot found is the place of the new entry in the list, and its parent is beside that place. */
  lemma SlotPlace(c: Ctx<RNode>, items: seq<RNode>, s: seq<TempReloc>, e: TempReloc)
    requires items == Seq(Zip(c, Leaf)) && Threaded(items, s) && NoneAbove(Before(c), e) && EachAbove(After(c), e)
    ensures items == Before(c) + After(c) && (c.Top? ==> s == [])
    ensures c.Frame? && c.side.Right? ==> |Before(c)| > 0 && s[|Before(c)| - 1] == c.n.entry
    ensures c.Frame? && c.side.Left? ==> |Before(c)| < |s| && s[|Before(c)|] == c.n.entry
    ensures Splits(s, e, |Before(c)|)
  {
    ZipSeq(c, Leaf);
    if c.Frame? {
      SlotNeighbours(c, items);
    }
    forall i | 0 <= i < |s| ensures Above(s[i], e) <==> |Before(c)| <= i {
      assert s[i] == items[i].entry;
      assert items[i] == if i < |Before(c)| then Before(c)[i] else After(c)[i - |Before(c)|];
    }
  }

  /** The entries from place `k` on, and no others, are above `e`. */
  ghost predicate Splits(s: seq<TempReloc>, e: TempReloc, k: nat) {
    k <= |s| && forall i :: 0 <= i < |s| ==> (Above(s[i], e) <==> k <= i)
  }

  lemma SlotOrder(a: seq<RNode>, x: RNode, b: seq<RNode>, s: seq<TempReloc>)
    requires Threaded(a + b, s) && InOrder(a + b) && NoneAbove(a, x.entry) && EachAbove(b, x.entry)
    ensures InOrder(a + [x] + b) && Threaded(a + [x] + b, With(s, |a|, x.entry))
  {
    InsertOrder(a, x, b);
    var items, t := a + [x] + b, With(s, |a|, x.entry);
    forall i | 0 <= i < |t| ensures items[i].entry == t[i] {
      assert i != |a| ==> items[i] == (a + b)[if i < |a| then i else i - 1];
    }
  }

  class TempRelocList {
    const root: RbRoot<TempReloc>
    var head: TempReloc?
    var tail: TempReloc?
    var count: nat
    ghost var list: seq<TempReloc>

    constructor ()
      ensures Valid() && list == [] && fresh(root) && root.nodes == {}
    {
      root := new RbRoot();
      head, tail, count, list := null, null, 0, [];
    }

    /** The linked list has the entries of the tree in its order, which is by I0 address and native address. */
    ghost predicate Valid()
      reads this, root, root.nodes, list
    {
      root.Valid() && Threaded(root.Items(), list) && InOrder(root.Items()) && Chained(list, head, tail)
        && count == |list|
    }

    /** The descent: to the right on ties. */
    method Search(e: TempReloc) returns (parent: RbNode?<TempReloc>, side: Side, ghost c: Ctx<RNode>)
      requires root.Valid() && InOrder(root.Items())
      ensures Zip(c, Leaf) == root.tree && parent == Par(c) && (c.Frame? ==> side == c.side)
      ensures NoneAbove(Before(c), e) && EachAbove(After(c), e)
    {
      var pos := root.node;
      parent, side := null, Left;
      c := Top;
      ghost var t := root.tree;
      root.Open();
      while pos != null
        invariant Zip(c, t) == root.tree && At(root, c, t) && pos == Ptr(t) && parent == Par(c)
        invariant c.Frame? ==> side == c.side
        invariant NoneAbove(Before(c), e) && EachAbove(After(c), e)
        decreases t
      {
        DescendOrder(c, t, e);
        parent := pos;
        if Above(pos.entry, e) {
          AtDown(root, c, t, Left);
          pos, side := pos.left, Left;
        } else {
          AtDown(root, c, t, Right);
          pos, side := pos.right, Right;
        }
        c, t := Into(c, t, side), t.Kid(side);
      }
    }

    /** The list links of `InsertTempReloc`, before `ent`. */
    method LinkBefore(newent: TempReloc, ent: TempReloc, ghost s: seq<TempReloc>, ghost k: nat)
      requires Chained(s, head, tail) && newent !in s && k < |s| && s[k] == ent
      modifies this`head, newent`prev, newent`next, s`prev, s`next
      ensures Chained(With(s, k, newent), head, tail)
    {
      newent.next := ent;
      newent.prev := ent.prev;
      ent.prev := newent;
      if newent.prev != null {
        newent.prev.next := newent;
      } else {
        head := newent;
      }
      ghost var r := With(s, k, newent);
      forall i | 0 <= i < |r| ensures r[i].prev == (if i == 0 then null else r[i - 1]) {
        assert i != k ==> r[i] == s[if i < k then i else i - 1];
      }
      forall i | 0 <= i < |r| ensures r[i].next == (if i + 1 == |r| then null else r[i + 1]) {
        assert i != k ==> r[i] == s[if i < k then i else i - 1];
      }
    }

    /** The list links of `InsertTempReloc`, after `ent`. */
    method LinkAfter(newent: TempReloc, ent: TempReloc, ghost s: seq<TempReloc>, ghost k: nat)
      requires Chained(s, head, tail) && newent !in s && 0 < k <= |s| && s[k - 1] == ent
      modifies this`tail, newent`prev, newent`next, s`prev, s`next
      ensures Chained(With(s, k, newent), head, tail)
    {
      newent.prev := ent;
      newent.next := ent.next;
      ent.next := newent;
      if newent.next != null {
        newent.next.prev := newent;
      } else {
        tail := newent;
      }
      ghost var r := With(s, k, newent);
      forall i | 0 <= i < |r| ensures r[i].prev == (if i == 0 then null else r[i - 1]) {
        assert i != k ==> r[i] == s[if i < k then i else i - 1];
      }
      forall i | 0 <= i < |r| ensures r[i].next == (if i + 1 == |r| then null else r[i + 1]) {
        assert i != k ==> r[i] == s[if i < k then i else i - 1];
      }
    }

    /** The list part of `InsertTempReloc`: the new entry goes next to `ent`. */
    method Thread(newent: TempReloc, ent: TempReloc?, side: Side, ghost s: seq<TempReloc>, ghost k: nat)
      requires Chained(s, head, tail) && newent !in s && k <= |s|
      requires if ent == null then s == [] else if side.Right? then k > 0 && s[k - 1] == ent else k < |s| && s[k] == ent
      modifies this`head, this`tail, newent`prev, newent`next, s`prev, s`next
      ensures Chained(With(s, k, newent), head, tail)
    {
      if ent == null {
        newent.prev, newent.next := null, null;
        head, tail := newent, newent;
      } else if side.Left? {
        LinkBefore(newent, ent, s, k);
      } else {
        LinkAfter(newent, ent, s, k);
      }
    }

    /** The tree part, as the list sees it. */
    method Hang(node: RNode, parent: RbNode?<TempReloc>, side: Side, ghost c: Ctx<RNode>, ghost s: seq<TempReloc>)
      requires root.Valid() && root.tree == Zip(c, Leaf) && parent == Par(c) && (c.Frame? ==> side == c.side)
      requires node !in root.nodes && Chained(s, head, tail)
      modifies root, root.nodes, node
      ensures root.Valid() && root.nodes == old(root.nodes) + {node} && root.Items() == Before(c) + [node] + After(c)
      ensures Chained(s, head, tail)
    {
      RbOps.Insert(node, parent, side, root, c);
    }

    /** The new entry goes into the empty slot of `c` and to place `k` of the list. */
    method InsertAt(newent: TempReloc, node: RNode, parent: RbNode?<TempReloc>, side: Side, ghost c: Ctx<RNode>,
        ghost k: nat)
      requires root.Valid() && root.tree == Zip(c, Leaf) && parent == Par(c) && (c.Frame? ==> side == c.side)
      requires Chained(list, head, tail) && newent !in list && node !in root.nodes && k <= |list|
      requires if parent == null then list == []
        else if side.Right? then k > 0 && list[k - 1] == parent.entry else k < |list| && list[k] == parent.entry
      modifies this`head, this`tail, this`list, list`prev, list`next, newent`prev, newent`next
      modifies root, root.nodes, node
      ensures root.Valid() && root.nodes == old(root.nodes) + {node} && root.Items() == Before(c) + [node] + After(c)
      ensures list == With(old(list), k, newent) && Chained(list, head, tail)
    {
      Thread(newent, if parent == null then null else parent.entry, side, list, k);
      list := With(list, k, newent);
      Hang(node, parent, side, c, list);
    }

    /** The search, as the list sees it. */
    method FindPlace(newent: TempReloc, ghost node: RNode)
        returns (parent: RbNode?<TempReloc>, side: Side, ghost c: Ctx<RNode>)
      requires Valid() && node.entry == newent
      ensures Valid() && Zip(c, Leaf) == root.tree && parent == Par(c) && (c.Frame? ==> side == c.side)
      ensures if parent == null then list == []
        else if side.Right? then 0 < |Before(c)| <= |list| && list[|Before(c)| - 1] == parent.entry
        else |Before(c)| < |list| && list[|Before(c)|] == parent.entry
      ensures Splits(list, newent, |Before(c)|)
      ensures InOrder(Before(c) + [node] + After(c))
        && Threaded(Before(c) + [node] + After(c), With(list, |Before(c)|, newent))
    {
      parent, side, c := Search(newent);
      SlotPlace(c, root.Items(), list, newent);
      SlotOrder(Before(c), node, After(c), list);
    }

    /** `InsertTempReloc`: the new entry goes after all that are not above it, so entries that are equal stay in
        the order they came in. */
    method InsertTempReloc(newent: TempReloc)
      requires Valid() && newent !in list
      requires newent.treeNode != null && newent.treeNode.entry == newent && newent.treeNode !in root.nodes
      modifies this`head, this`tail, this`count, this`list, list`prev, list`next, newent`prev, newent`next
      modifies root, root.nodes, newent.treeNode
      ensures Valid() && root.nodes == old(root.nodes) + {newent.treeNode}
      ensures exists k :: Splits(old(list), newent, k) && list == With(old(list), k, newent)
    {
      var parent, side;
      ghost var c;
      parent, side, c := FindPlace(newent, newent.treeNode);
      InsertAt(newent, newent.treeNode, parent, side, c, |Before(c)|);
      count := count + 1;
    }
  }
}
