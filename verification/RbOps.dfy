/** The operations of src/rbtree.c as their callers see them: on a root, by position in the order. */
module RbOps {
  import opened RbShape
  import opened RbMemory
  import opened RbTree
  import opened RbUnlink
  import opened RbErase

  /** Where a node of the tree is: its context and subtree. */
  lemma {:induction false} Locate<N>(c: Ctx<N>, t: Tree<N>, x: N) returns (c': Ctx<N>, t': Tree<N>)
    requires x in Nodes(t)
    ensures Zip(c', t') == Zip(c, t) && t'.Node? && t'.n == x
    decreases t
  {
    if t.n == x {
      c', t' := c, t;
    } else if x in Nodes(t.left) {
      c', t' := Locate(Frame(c, Left, t.n, t.color, t.right), t.left, x);
    } else {
      c', t' := Locate(Frame(c, Right, t.n, t.color, t.left), t.right, x);
    }
  }

  lemma {:induction false} AtFocus<T>(root: RbRoot<T>, c: Ctx<RbNode<T>>, t: Tree<RbNode<T>>)
    requires At(root, Top, Zip(c, t))
    ensures At(root, c, t) && CtxNodes(c) + Nodes(t) == Nodes(Zip(c, t))
  {
    if c.Frame? {
      AtFocus(root, c.up, c.Merge(t));
      AtUp(root, c, t);
    }
  }

  /** What precedes, and what follows, the first `x` of `s`. */
  function Preceding<N(==)>(s: seq<N>, x: N): seq<N> {
    if s == [] || s[0] == x then [] else [s[0]] + Preceding(s[1..], x)
  }

  function Following<N(==)>(s: seq<N>, x: N): seq<N> {
    if s == [] then [] else if s[0] == x then s[1..] else Following(s[1..], x)
  }

  lemma {:induction false} PlaceIn<N>(a: seq<N>, x: N, b: seq<N>)
    requires x !in a
    ensures Following(a + [x] + b, x) == b && Preceding(a + [x] + b, x) == a
  {
    if a != [] {
      assert (a + [x] + b)[1..] == a[1..] + [x] + b;
      PlaceIn(a[1..], x, b);
    } else {
      assert a + [x] + b == [x] + b;
    }
  }

  lemma {:induction false} SplitAt<N>(s: seq<N>, x: N)
    requires x in s
    ensures s == Preceding(s, x) + [x] + Following(s, x)
  {
    if s[0] != x {
      SplitAt(s[1..], x);
    }
  }

  lemma {:induction false} BeforeNodes<N>(c: Ctx<N>, x: N)
    ensures x in Before(c) || x in After(c) <==> x in CtxNodes(c)
  {
    if c.Frame? {
      BeforeNodes(c.up, x);
      SeqNodes(c.sib, x);
    }
  }

  lemma NotBefore<N>(c: Ctx<N>, t: Tree<N>)
    requires t.Node? && Distinct(Zip(c, t))
    ensures t.n !in Before(c) && t.n !in Seq(t.left)
  {
    ZipNodes(c, t);
    BeforeNodes(c, t.n);
    SeqNodes(t.left, t.n);
  }

  lemma AroundNode<N>(c: Ctx<N>, t: Tree<N>)
    requires t.Node?
    ensures Seq(Zip(c, t)) == (Before(c) + Seq(t.left)) + [t.n] + (Seq(t.right) + After(c))
  {
    ZipSeq(c, t);
    Regroup(Before(c), Seq(t.left), t.n, Seq(t.right), After(c));
  }

  lemma PlaceOf<N>(c: Ctx<N>, t: Tree<N>)
    requires t.Node? && Distinct(Zip(c, t))
    ensures Preceding(Seq(Zip(c, t)), t.n) == Before(c) + Seq(t.left)
    ensures Following(Seq(Zip(c, t)), t.n) == Seq(t.right) + After(c)
  {
    NotBefore(c, t);
    AroundNode(c, t);
    PlaceIn(Before(c) + Seq(t.left), t.n, Seq(t.right) + After(c));
  }

  lemma WithoutNode<N>(c: Ctx<N>, t: Tree<N>)
    requires t.Node? && Distinct(Zip(c, t))
    ensures Preceding(Seq(Zip(c, t)), t.n) + Following(Seq(Zip(c, t)), t.n) ==
      Before(c) + Seq(t.left) + Seq(t.right) + After(c)
  {
    PlaceOf(c, t);
  }

  method LinkAndColour<T>(node: RbNode<T>, parent: RbNode?<T>, side: Side, root: RbRoot<T>, ghost c: Ctx<RbNode<T>>)
      returns (ghost tree: Tree<RbNode<T>>)
    requires At(root, c, Leaf) && Balanced(Zip(c, Leaf)) && node !in CtxNodes(c)
    requires parent == Par(c) && (c.Frame? ==> side == c.side)
    modifies root`node, CtxNodes(c), node
    ensures At(root, Top, tree) && Balanced(tree)
    ensures Seq(tree) == Before(c) + [node] + After(c) && Nodes(tree) == CtxNodes(c) + {node}
  {
    LinkNode(node, parent, side, root, c);
    tree := InsertColor(node, root, c);
  }

  lemma AtDown<T>(root: RbRoot<T>, c: Ctx<RbNode<T>>, t: Tree<RbNode<T>>, s: Side)
    requires At(root, c, t) && t.Node?
    ensures t.n.left == Ptr(t.left) && t.n.right == Ptr(t.right) && t.n in Nodes(Zip(c, t))
    ensures At(root, Into(c, t, s), t.Kid(s)) && Zip(Into(c, t, s), t.Kid(s)) == Zip(c, t)
  {
    AtUp(root, Into(c, t, s), t.Kid(s));
    AroundFocus(Mem(CtxNodes(c) + Nodes(t)), root.node, c, t);
    ZipNodes(c, t);
  }

  /** `rb_link_node` then `rb_insert_color`, at the empty slot of `c`. */
  method Insert<T>(node: RbNode<T>, parent: RbNode?<T>, side: Side, root: RbRoot<T>, ghost c: Ctx<RbNode<T>>)
    requires root.Valid() && root.tree == Zip(c, Leaf) && node !in root.nodes
    requires parent == Par(c) && (c.Frame? ==> side == c.side)
    modifies root, root.nodes, node
    ensures root.Valid() && root.nodes == old(root.nodes) + {node}
    ensures root.Items() == Before(c) + [node] + After(c) && old(root.Items()) == Before(c) + After(c)
  {
    root.Open();
    AtFocus(root, c, Leaf);
    ZipSeq(c, Leaf);
    assert Nodes(root.tree) == CtxNodes(c) && root.Items() == Before(c) + After(c);
    ghost var tree := LinkAndColour(node, parent, side, root, c);
    root.Become(tree);
  }

  /** `rb_erase` */
  method Remove<T>(node: RbNode<T>, root: RbRoot<T>)
    requires root.Valid() && node in root.nodes
    modifies root, root.nodes
    ensures root.Valid() && root.nodes == old(root.nodes) - {node}
    ensures root.Items() == old(Preceding(root.Items(), node) + Following(root.Items(), node))
  {
    root.Open();
    ghost var c, t := Locate(Top, root.tree, node);
    AtFocus(root, c, t);
    WithoutNode(c, t);
    ghost var tree := Erase(node, root, c, t);
    root.Become(tree);
  }

  ghost function First<T>(s: seq<RbNode<T>>): RbNode?<T> {
    if s == [] then null else s[0]
  }

  ghost function Last<T>(s: seq<RbNode<T>>): RbNode?<T> {
    if s == [] then null else s[|s| - 1]
  }

  /** What the pointers of a node of the tree, and of its parent, say. */
  lemma NodeAt<T>(root: RbRoot<T>, c: Ctx<RbNode<T>>, t: Tree<RbNode<T>>)
    requires At(root, c, t) && t.Node?
    ensures t.n.left == Ptr(t.left) && t.n.right == Ptr(t.right) && t.n.parent == Par(c) && Par(c) != t.n
    ensures c.Frame? ==> (c.n.left == t.n <==> c.side.Left?) && (c.n.right == t.n <==> c.side.Right?)
  {
    AroundFocus(Mem(CtxNodes(c) + Nodes(t)), root.node, c, t);
    if c.Frame? && c.sib.Node? {
      assert c.sib.n in CtxNodes(c);
    }
  }

  lemma OwnParent<T>(node: RbNode<T>, root: RbRoot<T>)
    requires root.Valid() && node.parent == node
    ensures node !in root.nodes
  {
    root.Open();
    if node in root.nodes {
      var c, t := Locate(Top, root.tree, node);
      AtFocus(root, c, t);
      NodeAt(root, c, t);
    }
  }

  function Outer<N>(s: Side, t: Tree<N>): N
    requires t.Node?
  {
    if s.Left? then Seq(t)[0] else Seq(t)[|Seq(t)| - 1]
  }

  /** It is that of the child on that side, or the node itself if there is none. */
  lemma OuterKid<N>(s: Side, t: Tree<N>)
    requires t.Node?
    ensures Outer(s, t) == if t.Kid(s).Leaf? then t.n else Outer(s, t.Kid(s))
  {
    assert Seq(t) == Seq(t.left) + [t.n] + Seq(t.right);
    assert t.Kid(s).Node? ==> |Seq(t.Kid(s))| > 0;
  }

  /** The tree holds the elements of the list, in the same order. */
  ghost predicate Threaded<T>(items: seq<RbNode<T>>, s: seq<T>) {
    |items| == |s| && forall i {:trigger items[i]} {:trigger s[i]} :: 0 <= i < |s| ==> items[i].entry == s[i]
  }

  /** The place in the order that an empty slot stands for, and the neighbours its parent gives access to. */
  lemma SlotNeighbours<N>(c: Ctx<N>, items: seq<N>)
    requires items == Before(c) + After(c) && c.Frame?
    ensures c.side.Right? ==> |Before(c)| > 0 && items[|Before(c)| - 1] == c.n
    ensures c.side.Left? ==> |Before(c)| < |items| && items[|Before(c)|] == c.n
  {
  }

  /** The outermost node of a subtree on side `s`: as far as there is a child on that side. */
  method Outermost<T>(node: RbNode<T>, s: Side, root: RbRoot<T>, ghost c0: Ctx<RbNode<T>>, ghost t0: Tree<RbNode<T>>)
      returns (r: RbNode<T>)
    requires At(root, c0, t0) && t0.Node? && t0.n == node
    ensures r == Outer(s, t0)
  {
    r := node;
    ghost var c, t := c0, t0;
    NodeAt(root, c, t);
    while r.Kid(s) != null
      invariant At(root, c, t) && t.Node? && t.n == r && r.Kid(s) == Ptr(t.Kid(s))
      invariant Outer(s, t) == Outer(s, t0)
      decreases t
    {
      OuterKid(s, t);
      AtUp(root, Into(c, t, s), t.Kid(s));
      r := r.Kid(s);
      c, t := Into(c, t, s), t.Kid(s);
      NodeAt(root, c, t);
    }
    OuterKid(s, t);
  }

  /** The nearest ancestor whose subtree on side `s` holds `node`. */
  method ClimbWhile<T>(node0: RbNode<T>, s: Side, root: RbRoot<T>, ghost c0: Ctx<RbNode<T>>,
      ghost t0: Tree<RbNode<T>>) returns (parent: RbNode?<T>)
    requires At(root, c0, t0) && t0.Node? && t0.n == node0
    ensures parent == if s.Left? then First(After(c0)) else Last(Before(c0))
  {
    var node := node0;
    ghost var c, t := c0, t0;
    NodeAt(root, c, t);
    parent := node.parent;
    while parent != null && node == parent.Kid(s.Opp())
      invariant At(root, c, t) && t.Node? && t.n == node && parent == node.parent == Par(c)
      invariant c.Frame? ==> (c.n.left == t.n <==> c.side.Left?) && (c.n.right == t.n <==> c.side.Right?)
      invariant if s.Left? then After(c) == After(c0) else Before(c) == Before(c0)
      decreases c.Depth()
    {
      AtUp(root, c, t);
      node := parent;
      c, t := c.up, c.Merge(t);
      NodeAt(root, c, t);
      parent := node.parent;
    }
  }

  /** `rb_next`; the first test is for nodes cleared by `RB_CLEAR_NODE`, which are in no tree. */
  method Next<T>(node: RbNode<T>, root: RbRoot<T>) returns (r: RbNode?<T>)
    requires root.Valid() && (node in root.nodes || node.parent == node)
    ensures r == if node in root.nodes then First(Following(root.Items(), node)) else null
  {
    if node.parent == node {
      OwnParent(node, root);
      return null;
    }
    root.Open();
    ghost var c, t := Locate(Top, root.tree, node);
    AtFocus(root, c, t);
    NodeAt(root, c, t);
    PlaceOf(c, t);
    if node.right != null {
      ghost var d := Frame(c, Right, t.n, t.color, t.left);
      AtUp(root, d, t.right);
      r := Outermost(node.right, Left, root, d, t.right);
    } else {
      r := ClimbWhile(node, Left, root, c, t);
    }
  }

  /** `rb_prev` */
  method Prev<T>(node: RbNode<T>, root: RbRoot<T>) returns (r: RbNode?<T>)
    requires root.Valid() && (node in root.nodes || node.parent == node)
    ensures r == if node in root.nodes then Last(Preceding(root.Items(), node)) else null
  {
    if node.parent == node {
      OwnParent(node, root);
      return null;
    }
    root.Open();
    ghost var c, t := Locate(Top, root.tree, node);
    AtFocus(root, c, t);
    NodeAt(root, c, t);
    PlaceOf(c, t);
    if node.left != null {
      ghost var d := Frame(c, Left, t.n, t.color, t.right);
      AtUp(root, d, t.left);
      r := Outermost(node.left, Right, root, d, t.left);
    } else {
      r := ClimbWhile(node, Right, root, c, t);
    }
  }
}
