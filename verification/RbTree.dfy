/** src/rbtree.c: rotations and rebalancing after insertion. Mirrored halves of the C code are one
    body here, with the side as a parameter. */
module RbTree {
  import opened RbShape
  import opened RbMemory
  import opened RbFixup
  import opened Seals

  /** `struct rb_root`; `tree` is the tree the nodes below it are meant to form, and `nodes` its nodes. */
  class RbRoot<T> {
    var node: RbNode?<T>
    ghost var tree: Tree<RbNode<T>>
    ghost var nodes: set<RbNode<T>>

    constructor ()
      ensures Valid() && Items() == [] && nodes == {}
    {
      node, tree, nodes := null, Leaf, {};
    }

    /** The tree, if the pointers form it and it keeps the red-black tree invariants. */
    ghost function Formed(): Option<Tree<RbNode<T>>>
      reads `node, `tree, `nodes, nodes`parent, nodes`color, nodes`left, nodes`right
    {
      if forall k {:trigger Key(k)} :: Key(k) ==> nodes == Nodes(tree) && At(this, Top, tree) && Balanced(tree)
      then Some(tree) else None
    }

    ghost predicate Valid()
      reads `node, `tree, `nodes, nodes`parent, nodes`color, nodes`left, nodes`right
    {
      Formed() == Some(tree)
    }

    lemma Open()
      ensures Valid() <==> nodes == Nodes(tree) && At(this, Top, tree) && Balanced(tree)
    {
      assert Key(0);
    }

    ghost method Become(t: Tree<RbNode<T>>)
      requires At(this, Top, t) && Balanced(t)
      modifies this`tree, this`nodes
      ensures Valid() && tree == t && nodes == Nodes(t)
    {
      tree, nodes := t, Nodes(t);
    }

    /** The nodes in order. */
    ghost function Items(): seq<RbNode<T>>
      reads `tree
    {
      Seq(tree)
    }
  }

  /** The heap holds the tree `Zip(c, t)` below `root`. */
  ghost predicate At<T>(root: RbRoot<T>, c: Ctx<RbNode<T>>, t: Tree<RbNode<T>>)
    reads root`node, CtxNodes(c)`parent, CtxNodes(c)`color, CtxNodes(c)`left, CtxNodes(c)`right, Nodes(t)`parent,
      Nodes(t)`color, Nodes(t)`left, Nodes(t)`right
  {
    Rep(Mem(CtxNodes(c) + Nodes(t)), root.node, c, t)
  }

  method RotateLeft<T>(node: RbNode<T>, root: RbRoot<T>, ghost nodes: set<RbNode<T>>)
    requires Rotatable(Left, Mem(nodes), node)
    modifies root`node, nodes
    ensures Rotated(Left, old(Mem(nodes)), Mem(nodes), node, old(root.node), root.node)
  {
    var right := node.right;
    var parent := node.parent;
    node.right := right.left;
    if right.left != null {
      right.left.parent := node;
    }
    right.left := node;
    right.parent := parent;
    if parent != null {
      if node == parent.left {
        parent.left := right;
      } else {
        parent.right := right;
      }
    } else {
      root.node := right;
    }
    node.parent := right;
  }

  method RotateRight<T>(node: RbNode<T>, root: RbRoot<T>, ghost nodes: set<RbNode<T>>)
    requires Rotatable(Right, Mem(nodes), node)
    modifies root`node, nodes
    ensures Rotated(Right, old(Mem(nodes)), Mem(nodes), node, old(root.node), root.node)
  {
    var left := node.left;
    var parent := node.parent;
    node.left := left.right;
    if left.right != null {
      left.right.parent := node;
    }
    left.right := node;
    left.parent := parent;
    if parent != null {
      if node == parent.right {
        parent.right := left;
      } else {
        parent.left := left;
      }
    } else {
      root.node := left;
    }
    node.parent := left;
  }

  method Rotate<T>(s: Side, node: RbNode<T>, root: RbRoot<T>, ghost c: Ctx<RbNode<T>>, ghost t: Tree<RbNode<T>>)
    requires At(root, c, t)
    requires t.Node? && t.n == node && t.Kid(s.Opp()).Node?
    modifies root`node, CtxNodes(c), Nodes(t)
    ensures At(root, c, Turn(s, t))
  {
    ghost var nodes := CtxNodes(c) + Nodes(t);
    ghost var m, r := Mem(nodes), root.node;
    CanRotate(s, m, r, c, t);
    if s.Left? {
      RotateLeft(node, root, nodes);
    } else {
      RotateRight(node, root, nodes);
    }
    TurnRep(s, m, Mem(nodes), c, t, r, root.node);
  }

  lemma AtUp<T>(root: RbRoot<T>, c: Ctx<RbNode<T>>, t: Tree<RbNode<T>>)
    requires c.Frame?
    ensures Nodes(c.Merge(t)) + CtxNodes(c.up) == Nodes(t) + CtxNodes(c)
    ensures At(root, c, t) <==> At(root, c.up, c.Merge(t))
  {
    assert Nodes(c.Merge(t)) + CtxNodes(c.up) == Nodes(t) + CtxNodes(c);
    assert CtxNodes(c.up) + Nodes(c.Merge(t)) == CtxNodes(c) + Nodes(t);
    MoveUp(Mem(CtxNodes(c) + Nodes(t)), root.node, c, t);
  }

  lemma AtTop<T>(root: RbRoot<T>, c: Ctx<RbNode<T>>, t: Tree<RbNode<T>>)
    requires At(root, c, t)
    ensures Nodes(Zip(c, t)) == CtxNodes(c) + Nodes(t) && At(root, Top, Zip(c, t))
  {
    ZipNodes(c, t);
    assert CtxNodes<RbNode<T>>(Top) + Nodes(Zip(c, t)) == CtxNodes(c) + Nodes(t);
    MoveTop(Mem(CtxNodes(c) + Nodes(t)), root.node, c, t);
  }

  /** Moves the focus from a subtree to its sibling. */
  lemma AtSib<T>(root: RbRoot<T>, c: Ctx<RbNode<T>>, t: Tree<RbNode<T>>)
    requires c.Frame?
    ensures Nodes(c.sib) + CtxNodes(c.Across(t)) == Nodes(t) + CtxNodes(c)
    ensures At(root, c, t) <==> At(root, c.Across(t), c.sib)
  {
    AtUp(root, c, t);
    AtUp(root, c.Across(t), c.sib);
  }

  /** `rb_set_red`, `rb_set_black` and `rb_set_color`. */
  method SetColor<T>(x: RbNode<T>, k: Color, root: RbRoot<T>, ghost c: Ctx<RbNode<T>>, ghost t: Tree<RbNode<T>>)
    requires At(root, c, t) && t.Node? && t.n == x
    modifies x`color
    ensures At(root, c, t.Paint(k))
  {
    ghost var nodes := CtxNodes(c) + Nodes(t);
    ghost var m := Mem(nodes);
    x.color := k;
    assert Nodes(t.Paint(k)) == Nodes(t);
    KeepTree(m, Mem(nodes), t.left, x);
    KeepTree(m, Mem(nodes), t.right, x);
    KeepCtx(m, Mem(nodes), c, x, root.node);
  }

  /** The red-uncle case of `rb_insert_color`. */
  method Recolour<T>(parent: RbNode<T>, gparent: RbNode<T>, uncle: RbNode<T>, root: RbRoot<T>,
      ghost g: Ctx<RbNode<T>>, ghost u: Tree<RbNode<T>>)
    requires At(root, g, u) && u.Node? && u.n == parent && g.Frame? && g.n == gparent && g.sib.Node? && g.sib.n == uncle
    modifies CtxNodes(g), Nodes(u)
    ensures At(root, g.up, g.(sib := g.sib.Paint(Black)).Merge(u.Paint(Black)).Paint(Red))
  {
    AtSib(root, g, u);
    SetColor(uncle, Black, root, g.Across(u), g.sib);
    ghost var g' := g.(sib := g.sib.Paint(Black));
    AtSib(root, g', u);
    SetColor(parent, Black, root, g', u);
    AtUp(root, g', u.Paint(Black));
    SetColor(gparent, Red, root, g.up, g'.Merge(u.Paint(Black)));
  }

  /** The black-uncle case of `rb_insert_color`; the node left below `gparent` is returned. */
  method RotateUp<T>(node: RbNode<T>, parent0: RbNode<T>, gparent: RbNode<T>, root: RbRoot<T>,
      ghost c: Ctx<RbNode<T>>, ghost t: Tree<RbNode<T>>)
      returns (next: RbNode<T>)
    requires CanInsertStep(c, t) && !c.up.sib.IsRed() && At(root, c.up, c.Merge(t))
    requires t.n == node && c.n == parent0 && c.up.n == gparent
    modifies root`node, CtxNodes(c), Nodes(t)
    ensures At(root, InsertStepped(c, t).0, InsertStepped(c, t).1)
    ensures next == InsertStepped(c, t).1.n
  {
    var parent := parent0;
    ghost var g, u := c.up, c.Merge(t);
    next := node;
    var s := if gparent.left == parent then Left else Right;
    assert s == g.side;
    if parent.Kid(s.Opp()) == node {
      Rotate(s, parent, root, g, u);
      u := Turn(s, u);
      next, parent := parent, node;
    }
    SetColor(parent, Black, root, g, u);
    u := u.Paint(Black);
    AtUp(root, g, u);
    SetColor(gparent, Red, root, g.up, g.Merge(u));
    u := g.Merge(u).Paint(Red);
    Rotate(s.Opp(), gparent, root, g.up, u);
    u := Turn(s.Opp(), u);
    AtUp(root, Frame(g.up, s, u.n, Black, u.Kid(s.Opp())), u.Kid(s));
  }

  /** `rb_link_node`: hangs a red leaf in the empty slot of `c`, child `side` of `parent` or the root. */
  method LinkNode<T>(node: RbNode<T>, parent: RbNode?<T>, side: Side, root: RbRoot<T>, ghost c: Ctx<RbNode<T>>)
    requires At(root, c, Leaf) && parent == Par(c) && (c.Frame? ==> side == c.side)
    requires node !in CtxNodes(c)
    modifies root`node, CtxNodes(c), node
    ensures At(root, c, Node(Leaf, node, Red, Leaf))
  {
    ghost var m, r := Mem(CtxNodes(c)), root.node;
    assert CtxNodes(c) + Nodes<RbNode<T>>(Leaf) == CtxNodes(c);
    node.parent, node.color, node.left, node.right := parent, Red, null, null;
    if parent == null {
      root.node := node;
    } else if side.Left? {
      assert parent in CtxNodes(c);
      parent.left := node;
    } else {
      assert parent in CtxNodes(c);
      parent.right := node;
    }
    ghost var t: Tree<RbNode<T>> := Node(Leaf, node, Red, Leaf);
    assert Nodes(t) == {node};
    ghost var m' := Mem(CtxNodes(c) + Nodes(t));
    FillHole(m, m', c, null, node, r, root.node);
    assert TreeRep(m', t, parent);
  }

  /** One pass of the loop of `rb_insert_color`. */
  method InsertStep<T>(node: RbNode<T>, root: RbRoot<T>, ghost c: Ctx<RbNode<T>>, ghost t: Tree<RbNode<T>>)
      returns (next: RbNode<T>)
    requires CanInsertStep(c, t) && At(root, c, t) && t.n == node
    modifies root`node, CtxNodes(c), Nodes(t)
    ensures At(root, InsertStepped(c, t).0, InsertStepped(c, t).1)
    ensures next == InsertStepped(c, t).1.n
  {
    var parent := node.parent;
    var gparent := parent.parent;
    AtUp(root, c, t);
    var uncle := if gparent.left == parent then gparent.right else gparent.left;
    if uncle != null && uncle.color.Red? {
      Recolour(parent, gparent, uncle, root, c.up, c.Merge(t));
      next := gparent;
    } else {
      next := RotateUp(node, parent, gparent, root, c, t);
    }
  }

  /** The root is set black. */
  method BlackenRoot<T>(root: RbRoot<T>, ghost c: Ctx<RbNode<T>>, ghost t: Tree<RbNode<T>>)
    requires At(root, c, t) && Zip(c, t).Node?
    modifies CtxNodes(c), Nodes(t)
    ensures Nodes(Zip(c, t).Paint(Black)) == CtxNodes(c) + Nodes(t)
    ensures At(root, Top, Zip(c, t).Paint(Black))
  {
    AtTop(root, c, t);
    SetColor(root.node, Black, root, Top, Zip(c, t));
  }

  method InsertColor<T>(node0: RbNode<T>, root: RbRoot<T>, ghost c0: Ctx<RbNode<T>>)
      returns (ghost tree: Tree<RbNode<T>>)
    requires At(root, c0, Node(Leaf, node0, Red, Leaf)) && Balanced(Zip(c0, Leaf))
    modifies root`node, CtxNodes(c0), node0
    ensures At(root, Top, tree) && Balanced(tree)
    ensures Seq(tree) == Before(c0) + [node0] + After(c0)
    ensures Nodes(tree) == CtxNodes(c0) + {node0}
  {
    var node := node0;
    ghost var t0 := Node(Leaf, node0, Red, Leaf);
    ghost var c, t, h: nat := c0, t0, 0;
    UnzipBalanced(c0, Leaf);
    while node.parent != null && node.parent.color.Red?
      invariant CtxNodes(c) + Nodes(t) == CtxNodes(c0) + {node0}
      invariant At(root, c, t) && InsertInv(c, t, h) && t.n == node
      invariant Seq(Zip(c, t)) == Seq(Zip(c0, t0))
      decreases c.Depth()
    {
      InsertStepBalance(c, t, h);
      InsertStepSeq(c, t);
      node := InsertStep(node, root, c, t);
      h := if c.up.sib.IsRed() then h + 1 else h;
      var step := InsertStepped(c, t);
      c, t := step.0, step.1;
    }
    FinishBalanced(c, t, h);
    InsertedSeq(c0, node0, Zip(c, t));
    tree := Zip(c, t).Paint(Black);
    BlackenRoot(root, c, t);
  }
}
