/** src/rbtree.c: `rb_erase` and `__rb_erase_color`. */
module RbErase {
  import opened RbShape
  import opened RbMemory
  import opened RbFixup
  import opened RbUnlink
  import opened RbTree

  /** The red-sibling case of `__rb_erase_color`. */
  method RaiseSibling<T>(parent: RbNode<T>, other: RbNode<T>, s: Side, root: RbRoot<T>, ghost c: Ctx<RbNode<T>>,
      ghost t: Tree<RbNode<T>>)
    requires At(root, c, t) && c.Frame? && c.n == parent && c.side == s && c.sib.Node? && c.sib.n == other
    modifies root`node, CtxNodes(c), Nodes(t)
    ensures At(root, RaiseSib(c), t)
  {
    AtSib(root, c, t);
    SetColor(other, Black, root, c.Across(t), c.sib);
    ghost var c' := c.(sib := c.sib.Paint(Black));
    AtSib(root, c', t);
    AtUp(root, c', t);
    SetColor(parent, Red, root, c.up, c'.Merge(t));
    Rotate(s, parent, root, c.up, c'.Merge(t).Paint(Red));
    AtUp(root, RaiseSib(c), t);
    AtUp(root, RaiseSib(c).up, RaiseSib(c).Merge(t));
  }

  /** The sibling's inner child is red and its outer child is not. */
  method TurnSibling<T>(other: RbNode<T>, s: Side, root: RbRoot<T>, ghost c: Ctx<RbNode<T>>, ghost t: Tree<RbNode<T>>)
    requires At(root, c, t) && c.Frame? && c.side == s && c.sib.Node? && c.sib.n == other && c.sib.Kid(s).Node?
    modifies root`node, CtxNodes(c), Nodes(t)
    ensures At(root, TurnSib(c), t)
  {
    ghost var a, o := c.Across(t), c.sib;
    ghost var b, f := o.Kid(s), o.Kid(s.Opp());
    AtSib(root, c, t);
    ghost var d := Frame(a, s, other, o.color, f);
    AtUp(root, d, b);
    SetColor(other.Kid(s), Black, root, d, b);
    AtUp(root, d, b.Paint(Black));
    SetColor(other, Red, root, a, d.Merge(b.Paint(Black)));
    Rotate(s.Opp(), other, root, a, d.Merge(b.Paint(Black)).Paint(Red));
    AtSib(root, TurnSib(c), t);
  }

  /** The outer child of the sibling is red: recolour and rotate the parent, which ends the loop. */
  method RefillHole<T>(parent: RbNode<T>, other: RbNode<T>, s: Side, root: RbRoot<T>, ghost c: Ctx<RbNode<T>>,
      ghost t: Tree<RbNode<T>>)
    requires At(root, c, t) && c.Frame? && c.n == parent && c.side == s && c.sib.Node? && c.sib.n == other
      && c.sib.Kid(s.Opp()).Node?
    modifies root`node, CtxNodes(c), Nodes(t)
    ensures At(root, c.up, Refill(c, t))
  {
    ghost var o, f := c.sib, c.sib.Kid(s.Opp());
    AtSib(root, c, t);
    SetColor(other, parent.color, root, c.Across(t), o);
    ghost var c1 := c.(sib := o.Paint(c.color));
    AtSib(root, c1, t);
    AtUp(root, c1, t);
    SetColor(parent, Black, root, c.up, c1.Merge(t));
    c1 := c1.(color := Black);
    AtUp(root, c1, t);
    AtSib(root, c1, t);
    ghost var d := Frame(c1.Across(t), s.Opp(), other, c.color, o.Kid(s));
    AtUp(root, d, f);
    SetColor(other.Kid(s.Opp()), Black, root, d, f);
    AtUp(root, d, f.Paint(Black));
    c1 := c1.(sib := d.Merge(f.Paint(Black)));
    AtSib(root, c1, t);
    AtUp(root, c1, t);
    Rotate(s, parent, root, c.up, c1.Merge(t));
  }

  /** The hole's side is told by comparing pointers, even when the hole is empty. */
  lemma HoleSide<T>(root: RbRoot<T>, c: Ctx<RbNode<T>>, t: Tree<RbNode<T>>)
    requires At(root, c, t) && c.Frame? && c.sib.Node?
    ensures c.n.left == Ptr(t) <==> c.side.Left?
  {
    assert c.sib.n in Nodes(c.sib);
  }

  lemma IsRootSlot<T>(root: RbRoot<T>, c: Ctx<RbNode<T>>, t: Tree<RbNode<T>>)
    requires At(root, c, t)
    ensures root.node == Ptr(t) <==> c.Top?
    ensures t.Node? ==> t.n.color == t.color
  {
    RootInside(Mem(CtxNodes(c) + Nodes(t)), c, Ptr(t), root.node);
  }

  /** The colours of the sibling's children, read through the sibling. */
  lemma NephewColours<T>(root: RbRoot<T>, c: Ctx<RbNode<T>>, t: Tree<RbNode<T>>)
    requires At(root, c, t) && c.Frame? && c.sib.Node?
    ensures c.n.parent == Par(c.up) && c.n.color == c.color && c.n.Kid(c.side.Opp()) == c.sib.n
      && c.sib.n.color == c.sib.color
    ensures c.sib.n.left == Ptr(c.sib.left) && (c.sib.left.Node? ==> c.sib.left.n.color == c.sib.left.color)
    ensures c.sib.n.right == Ptr(c.sib.right) && (c.sib.right.Node? ==> c.sib.right.n.color == c.sib.right.color)
  {
    ghost var m := Mem(CtxNodes(c) + Nodes(t));
    assert TreeRep(m, c.sib.left, c.sib.n) && TreeRep(m, c.sib.right, c.sib.n);
  }

  /** The black sibling, given a red outer child by a rotation if only its inner child is red. */
  method RedOuter<T>(parent: RbNode<T>, other0: RbNode<T>, s: Side, root: RbRoot<T>, ghost c: Ctx<RbNode<T>>,
      ghost t: Tree<RbNode<T>>, ghost h: nat)
      returns (other: RbNode<T>, ghost c': Ctx<RbNode<T>>)
    requires At(root, c, t) && EraseInv(c, t, h) && c.Frame? && c.sib.Node? && c.sib.color.Black?
    requires c.sib.left.IsRed() || c.sib.right.IsRed()
    requires parent == c.n && other0 == c.sib.n && s == c.side
    modifies root`node, CtxNodes(c), Nodes(t)
    ensures At(root, c', t) && EraseInv(c', t, h) && c'.Frame? && c'.n == parent && c'.side == s
    ensures c'.sib.Node? && c'.sib.color.Black? && c'.sib.Kid(s.Opp()).IsRed() && other == c'.sib.n
    ensures Seq(Zip(c', t)) == Seq(Zip(c, t)) && CtxNodes(c') == CtxNodes(c)
  {
    other, c' := other0, c;
    NephewColours(root, c, t);
    if other.Kid(s.Opp()) == null || other.Kid(s.Opp()).color.Black? {
      TurnSibKeeps(c, t, h);
      TurnSibling(other, s, root, c, t);
      c' := TurnSib(c);
      NephewColours(root, c', t);
      other := parent.Kid(s.Opp());
    }
  }

  /** The sibling is black and has a red child: at most two rotations, and the tree is balanced. */
  method EraseFinish<T>(parent: RbNode<T>, other0: RbNode<T>, s: Side, root: RbRoot<T>,
      ghost c0: Ctx<RbNode<T>>, ghost t: Tree<RbNode<T>>, ghost h: nat)
      returns (ghost tree: Tree<RbNode<T>>)
    requires At(root, c0, t) && EraseInv(c0, t, h) && !t.IsRed() && c0.Frame? && c0.sib.Node? && c0.sib.color.Black?
    requires c0.sib.left.IsRed() || c0.sib.right.IsRed()
    requires parent == c0.n && other0 == c0.sib.n && s == c0.side
    modifies root`node, CtxNodes(c0), Nodes(t)
    ensures At(root, Top, tree) && EraseInv(Top, tree, BlackHeight(tree)) && root.node == Ptr(tree)
    ensures Seq(Zip(Top, tree)) == Seq(Zip(c0, t))
    ensures CtxNodes<RbNode<T>>(Top) + Nodes(tree) == CtxNodes(c0) + Nodes(t)
  {
    var other;
    ghost var c;
    other, c := RedOuter(parent, other0, s, root, c0, t, h);
    RefillHole(parent, other, s, root, c, t);
    RefillKeeps(c, t, h);
    AtTop(root, c.up, Refill(c, t));
    tree := Zip(c.up, Refill(c, t));
  }

  /** The sibling and its children are black: the sibling turns red and the focus climbs. */
  method ReddenSibling<T>(other: RbNode<T>, root: RbRoot<T>, ghost c: Ctx<RbNode<T>>, ghost t: Tree<RbNode<T>>,
      ghost h: nat)
      returns (ghost t': Tree<RbNode<T>>, ghost h': nat)
    requires At(root, c, t) && EraseInv(c, t, h) && !t.IsRed() && c.Frame? && c.sib.Node? && c.sib.color.Black?
    requires !c.sib.left.IsRed() && !c.sib.right.IsRed() && other == c.sib.n
    modifies CtxNodes(c), Nodes(t)
    ensures At(root, c.up, t') && EraseInv(c.up, t', h') && t'.Node? && t'.n == c.n && t'.color == c.color
    ensures Seq(Zip(c.up, t')) == Seq(Zip(c, t)) && CtxNodes(c.up) + Nodes(t') == CtxNodes(c) + Nodes(t)
  {
    AtSib(root, c, t);
    SetColor(other, Red, root, c.Across(t), c.sib);
    AtSib(root, c.(sib := c.sib.Paint(Red)), t);
    AtUp(root, c.(sib := c.sib.Paint(Red)), t);
    ReddenSibKeeps(c, t, h);
    t', h' := c.(sib := c.sib.Paint(Red)).Merge(t), if c.color.Red? then h else h + 1;
    ZipNodes(c, t);
    ZipNodes(c.up, t');
  }

  /** The sibling of the focus, made black first by a rotation if it is red. */
  method BlackSibling<T>(node: RbNode?<T>, parent: RbNode<T>, s: Side, root: RbRoot<T>,
      ghost c: Ctx<RbNode<T>>, ghost t: Tree<RbNode<T>>, ghost h: nat)
      returns (other: RbNode<T>, ghost c': Ctx<RbNode<T>>)
    requires At(root, c, t) && EraseInv(c, t, h) && c.Frame? && parent == c.n && s == c.side
    modifies root`node, CtxNodes(c), Nodes(t)
    ensures At(root, c', t) && EraseInv(c', t, h) && c'.Frame? && c'.n == parent && c'.side == s
    ensures c'.sib.Node? && c'.sib.color.Black? && other == c'.sib.n
    ensures Seq(Zip(c', t)) == Seq(Zip(c, t)) && CtxNodes(c') == CtxNodes(c)
    ensures c' == c || (c'.color.Red? && c'.up.Depth() == c.Depth())
  {
    c' := c;
    NephewColours(root, c, t);
    other := parent.Kid(s.Opp());
    if other.color.Red? {
      RaiseSibKeeps(c, t, h);
      RaiseSibling(parent, other, s, root, c, t);
      c' := RaiseSib(c);
      NephewColours(root, c', t);
      other := parent.Kid(s.Opp());
    }
  }

  /** One pass of the loop of `__rb_erase_color`. */
  method EraseStep<T>(node: RbNode?<T>, parent: RbNode<T>, root: RbRoot<T>, ghost c0: Ctx<RbNode<T>>,
      ghost t: Tree<RbNode<T>>, ghost h: nat)
      returns (next: RbNode?<T>, nextParent: RbNode?<T>, ghost c': Ctx<RbNode<T>>, ghost t': Tree<RbNode<T>>,
        ghost h': nat)
    requires At(root, c0, t) && EraseInv(c0, t, h) && !t.IsRed() && c0.Frame? && parent == c0.n && node == Ptr(t)
    modifies root`node, CtxNodes(c0), Nodes(t)
    ensures At(root, c', t') && EraseInv(c', t', h') && next == Ptr(t') && (c'.Frame? ==> nextParent == c'.n)
    ensures Seq(Zip(c', t')) == Seq(Zip(c0, t)) && CtxNodes(c') + Nodes(t') == CtxNodes(c0) + Nodes(t)
    ensures c'.Depth() < c0.Depth() || (t'.IsRed() && c'.Depth() == c0.Depth())
  {
    HoleSide(root, c0, t);
    var s := if parent.left == node then Left else Right;
    var other;
    ghost var c;
    other, c := BlackSibling(node, parent, s, root, c0, t, h);
    NephewColours(root, c, t);
    if (other.left == null || other.left.color.Black?) && (other.right == null || other.right.color.Black?) {
      t', h' := ReddenSibling(other, root, c, t, h);
      c' := c.up;
      next, nextParent := parent, parent.parent;
    } else {
      t' := EraseFinish(parent, other, s, root, c, t, h);
      c', h' := Top, BlackHeight(t');
      next, nextParent := root.node, parent;
    }
  }

  method EraseColor<T>(node0: RbNode?<T>, parent0: RbNode?<T>, root: RbRoot<T>, ghost c0: Ctx<RbNode<T>>,
      ghost t0: Tree<RbNode<T>>, ghost h0: nat)
      returns (ghost tree: Tree<RbNode<T>>)
    requires At(root, c0, t0) && EraseInv(c0, t0, h0) && node0 == Ptr(t0) && parent0 == Par(c0)
    modifies root`node, CtxNodes(c0), Nodes(t0)
    ensures At(root, Top, tree) && Balanced(tree)
    ensures Seq(tree) == Seq(Zip(c0, t0)) && Nodes(tree) == CtxNodes(c0) + Nodes(t0)
  {
    var node, parent := node0, parent0;
    ghost var c, t, h := c0, t0, h0;
    IsRootSlot(root, c, t);
    while (node == null || node.color.Black?) && node != root.node
      invariant At(root, c, t) && EraseInv(c, t, h) && node == Ptr(t) && (c.Frame? ==> parent == c.n)
      invariant Seq(Zip(c, t)) == Seq(Zip(c0, t0)) && CtxNodes(c) + Nodes(t) == CtxNodes(c0) + Nodes(t0)
      invariant root.node == Ptr(t) <==> c.Top?
      decreases c.Depth(), if t.IsRed() then 0 else 1
    {
      node, parent, c, t, h := EraseStep(node, parent, root, c, t, h);
      IsRootSlot(root, c, t);
    }
    BlackenKeeps(c, t, h);
    if node != null {
      SetColor(node, Black, root, c, t);
      t := t.Paint(Black);
    }
    AtTop(root, c, t);
    tree := Zip(c, t);
  }

  /** A node with at most one child is cut out, by the code before the label `color` of `rb_erase`. */
  method CutOut<T>(node: RbNode<T>, child: RbNode?<T>, root: RbRoot<T>, ghost nodes: set<RbNode<T>>)
    requires node in nodes && child != node && (child != null ==> child in nodes && child != node.parent)
    requires node.parent != null ==> node.parent in nodes && node.parent != node
    modifies root`node, nodes
    ensures WasSpliced(old(Mem(nodes)), Mem(nodes), node, child)
    ensures root.node == RootSlot(old(root.node), old(node.parent), child)
    ensures node.parent == old(node.parent) && node.color == old(node.color)
  {
    var parent := node.parent;
    if child != null {
      child.parent := parent;
    }
    if parent != null {
      if parent.left == node {
        parent.left := child;
      } else {
        parent.right := child;
      }
    } else {
      root.node := child;
    }
  }

  /** `old` has two children: its successor `node` is cut out and takes its place. */
  method TakePlace<T>(x: RbNode<T>, node: RbNode<T>, root: RbRoot<T>, ghost nodes: set<RbNode<T>>)
      returns (child: RbNode?<T>, parent: RbNode<T>, color: Color)
    requires Replaceable(Mem(nodes), x, node)
    modifies root`node, nodes
    ensures TookPlace(old(Mem(nodes)), Mem(nodes), x, node)
    ensures child == old(node.right) && color == old(node.color)
    ensures parent == if old(node.parent) == x then node else old(node.parent)
    ensures root.node == RootSlot(old(root.node), old(x.parent), node)
  {
    if x.parent != null {
      if x.parent.left == x {
        x.parent.left := node;
      } else {
        x.parent.right := node;
      }
    } else {
      root.node := node;
    }
    child := node.right;
    parent := node.parent;
    color := node.color;
    if parent == x {
      parent := node;
    } else {
      if child != null {
        child.parent := parent;
      }
      parent.left := child;
      node.right := x.right;
      x.right.parent := node;
    }
    node.parent, node.color := x.parent, x.color;
    node.left := x.left;
    x.left.parent := node;
  }

  /** One step of the search to the left. */
  lemma StepLeft<T>(root: RbRoot<T>, c: Ctx<RbNode<T>>, t: Tree<RbNode<T>>, d: Ctx<RbNode<T>>, u: Tree<RbNode<T>>)
    requires t.Node? && u.Node? && AllLeft(d) && t.right == Zip(d, u)
    requires At(root, Join(d, RightOf(c, t)), u)
    ensures u.n.left == Ptr(u.left)
    ensures AllLeft(Into(d, u, Left)) && t.right == Zip(Into(d, u, Left), u.left)
    ensures CtxNodes(Join(Into(d, u, Left), RightOf(c, t))) + Nodes(u.left) ==
      CtxNodes(Join(d, RightOf(c, t))) + Nodes(u)
    ensures At(root, Join(Into(d, u, Left), RightOf(c, t)), u.left)
  {
    AtUp(root, Into(Join(d, RightOf(c, t)), u, Left), u.left);
  }

  /** The leftmost node of the right subtree, found by going right once and then left as far as that goes. */
  method Successor<T>(x: RbNode<T>, root: RbRoot<T>, ghost c: Ctx<RbNode<T>>, ghost t: Tree<RbNode<T>>)
      returns (node: RbNode<T>, ghost d: Ctx<RbNode<T>>, ghost u: Tree<RbNode<T>>)
    requires At(root, c, t) && t.Node? && t.n == x && t.right.Node?
    ensures u.Node? && u.n == node && u.left.Leaf? && AllLeft(d) && t.right == Zip(d, u)
    ensures CtxNodes(Join(d, RightOf(c, t))) + Nodes(u) == CtxNodes(c) + Nodes(t)
    ensures At(root, Join(d, RightOf(c, t)), u)
  {
    AtUp(root, RightOf(c, t), t.right);
    d, u := Top, t.right;
    node := x.right;
    while node.left != null
      invariant u.Node? && u.n == node && AllLeft(d) && t.right == Zip(d, u)
      invariant CtxNodes(Join(d, RightOf(c, t))) + Nodes(u) == CtxNodes(c) + Nodes(t)
      invariant At(root, Join(d, RightOf(c, t)), u)
      decreases u
    {
      StepLeft(root, c, t, d, u);
      node := node.left;
      d, u := Into(d, u, Left), u.left;
    }
  }

  /** The label `color` of `rb_erase`. */
  method Settle<T>(child: RbNode?<T>, parent: RbNode?<T>, color: Color, root: RbRoot<T>,
      ghost c: Ctx<RbNode<T>>, ghost t: Tree<RbNode<T>>, ghost h: nat)
      returns (ghost tree: Tree<RbNode<T>>)
    requires At(root, c, t) && child == Ptr(t) && parent == Par(c)
    requires if color.Red? then Balanced(Zip(c, t)) else EraseInv(c, t, h)
    modifies root`node, CtxNodes(c), Nodes(t)
    ensures At(root, Top, tree) && Balanced(tree)
    ensures Seq(tree) == Seq(Zip(c, t)) && Nodes(tree) == CtxNodes(c) + Nodes(t)
  {
    if color.Black? {
      tree := EraseColor(child, parent, root, c, t, h);
    } else {
      AtTop(root, c, t);
      tree := Zip(c, t);
    }
  }

  method CutThin<T>(node: RbNode<T>, child: RbNode?<T>, root: RbRoot<T>, ghost s: Side, ghost c: Ctx<RbNode<T>>,
      ghost t: Tree<RbNode<T>>)
    requires At(root, c, t) && t.Node? && t.n == node && t.Kid(s.Opp()).Leaf? && child == Ptr(t.Kid(s))
    modifies root`node, CtxNodes(c), Nodes(t)
    ensures At(root, c, t.Kid(s)) && CtxNodes(c) + Nodes(t.Kid(s)) == CtxNodes(c) + Nodes(t) - {node}
    ensures node.parent == Par(c) && node.color == t.color
  {
    ghost var nodes := CtxNodes(c) + Nodes(t);
    ghost var m, r := Mem(nodes), root.node;
    AroundFocus(m, r, c, t);
    SpliceRep(m, r, c, t, s);
    CutOut(node, child, root, nodes);
    assert CtxNodes(c) + Nodes(t.Kid(s)) == nodes - {node};
    SplicedFrom(m, Mem(nodes - {node}), node, child);
  }

  /** `rb_erase` when the node has at most one child, on side `s`. */
  method EraseThin<T>(node: RbNode<T>, child: RbNode?<T>, root: RbRoot<T>, ghost s: Side, ghost c: Ctx<RbNode<T>>,
      ghost t: Tree<RbNode<T>>)
      returns (ghost tree: Tree<RbNode<T>>)
    requires At(root, c, t) && t.Node? && t.n == node && t.Kid(s.Opp()).Leaf? && child == Ptr(t.Kid(s))
      && Balanced(Zip(c, t))
    modifies root`node, CtxNodes(c), Nodes(t)
    ensures At(root, Top, tree) && Balanced(tree)
    ensures Seq(tree) == Before(c) + Seq(t.left) + Seq(t.right) + After(c)
    ensures Nodes(tree) == CtxNodes(c) + Nodes(t) - {node}
  {
    ThinBalance(c, t, s);
    ThinSeq(c, t, s);
    CutThin(node, child, root, s, c, t);
    tree := Settle(child, node.parent, node.color, root, c, t.Kid(s), BlackHeight(t) - if t.color.Red? then 0 else 1);
  }

  method ReplaceNode<T>(x: RbNode<T>, node: RbNode<T>, root: RbRoot<T>,
      ghost c: Ctx<RbNode<T>>, ghost t: Tree<RbNode<T>>, ghost d: Ctx<RbNode<T>>, ghost u: Tree<RbNode<T>>)
      returns (child: RbNode?<T>, parent: RbNode<T>, color: Color)
    requires t.Node? && t.n == x && t.left.Node? && t.right == Zip(d, u)
    requires AllLeft(d) && u.Node? && u.left.Leaf? && u.n == node
    requires CtxNodes(Join(d, RightOf(c, t))) + Nodes(u) == CtxNodes(c) + Nodes(t)
      && At(root, Join(d, RightOf(c, t)), u)
    modifies root`node, CtxNodes(c), Nodes(t)
    ensures var e := Join(d, RightOf(c, t.(n := node)));
      At(root, e, u.right) && CtxNodes(e) + Nodes(u.right) == CtxNodes(c) + Nodes(t) - {x} && parent == Par(e)
    ensures child == Ptr(u.right) && color == u.color
  {
    ghost var nodes := CtxNodes(c) + Nodes(t);
    ghost var m, r := Mem(nodes), root.node;
    MoveDown(m, r, d, RightOf(c, t), u);
    MoveUp(m, r, RightOf(c, t), t.right);
    CanReplace(m, r, c, t, d, u);
    child, parent, color := TakePlace(x, node, root, nodes);
    TookPlaceRep(m, Mem(nodes), r, c, t, d, u);
    ghost var e := Join(d, RightOf(c, t.(n := node)));
    assert CtxNodes(e) + Nodes(u.right) == nodes - {x};
    assert Mem(nodes) - {x} == Mem(nodes - {x});
  }

  /** `rb_erase` when the node has two children. */
  method EraseFull<T>(x: RbNode<T>, root: RbRoot<T>, ghost c: Ctx<RbNode<T>>, ghost t: Tree<RbNode<T>>)
      returns (ghost tree: Tree<RbNode<T>>)
    requires At(root, c, t) && t.Node? && t.n == x && t.left.Node? && t.right.Node? && Balanced(Zip(c, t))
    modifies root`node, CtxNodes(c), Nodes(t)
    ensures At(root, Top, tree) && Balanced(tree)
    ensures Seq(tree) == Before(c) + Seq(t.left) + Seq(t.right) + After(c)
    ensures Nodes(tree) == CtxNodes(c) + Nodes(t) - {x}
  {
    var node;
    ghost var d, u;
    node, d, u := Successor(x, root, c, t);
    FullBalance(c, t, d, u);
    FullSeq(c, t, d, u);
    var child, parent, color := ReplaceNode(x, node, root, c, t, d, u);
    tree := Settle(child, parent, color, root, Join(d, RightOf(c, t.(n := node))), u.right,
      BlackHeight(u) - if u.color.Red? then 0 else 1);
  }

  method Erase<T>(node: RbNode<T>, root: RbRoot<T>, ghost c: Ctx<RbNode<T>>, ghost t: Tree<RbNode<T>>)
      returns (ghost tree: Tree<RbNode<T>>)
    requires At(root, c, t) && t.Node? && t.n == node && Balanced(Zip(c, t))
    modifies root`node, CtxNodes(c), Nodes(t)
    ensures At(root, Top, tree) && Balanced(tree)
    ensures Seq(tree) == Before(c) + Seq(t.left) + Seq(t.right) + After(c)
    ensures Nodes(tree) == CtxNodes(c) + Nodes(t) - {node}
  {
    AroundFocus(Mem(CtxNodes(c) + Nodes(t)), root.node, c, t);
    if node.left == null {
      tree := EraseThin(node, node.right, root, Right, c, t);
    } else if node.right == null {
      tree := EraseThin(node, node.left, root, Left, c, t);
    } else {
      tree := EraseFull(node, root, c, t);
    }
  }
}
