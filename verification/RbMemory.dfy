/** Linked nodes, snapshots of their fields, and what it means for a snapshot to hold a tree. */
module RbMemory {
  import opened RbShape

  /** The fields of a node: the two halves of `rb_parent_color`, then `rb_left` and `rb_right`. */
  datatype Cell<T> = Cell(parent: RbNode?<T>, color: Color, left: RbNode?<T>, right: RbNode?<T>) {
    function Kid(s: Side): RbNode?<T> {
      if s.Left? then left else right
    }
  }

  /** `struct rb_node`, embedded in the structure `entry`. */
  class RbNode<T> {
    const entry: T
    var parent: RbNode?<T>
    var color: Color
    var left: RbNode?<T>
    var right: RbNode?<T>

    constructor (e: T)
      ensures entry == e
    {
      entry := e;
      parent, color, left, right := null, Red, null, null;
    }

    function Kid(s: Side): RbNode?<T>
      reads this
    {
      if s.Left? then left else right
    }
  }

  type Memory<T> = map<RbNode<T>, Cell<T>>

  ghost function Mem<T>(nodes: set<RbNode<T>>): (m: Memory<T>)
    reads nodes`parent, nodes`color, nodes`left, nodes`right
    ensures m.Keys == nodes
  {
    map x | x in nodes :: Cell(x.parent, x.color, x.left, x.right)
  }

  ghost function Ptr<T>(t: Tree<RbNode<T>>): RbNode?<T> {
    if t.Leaf? then null else t.n
  }

  ghost function Par<T>(c: Ctx<RbNode<T>>): RbNode?<T> {
    if c.Top? then null else c.n
  }

  /** The nodes of a tree exist, so allocation and calls elsewhere leave them alone. */
  lemma {:induction false} NodesAllocated<T>(t: Tree<RbNode<T>>)
    ensures forall x :: x in Nodes(t) ==> allocated(x)
  {
    if t.Node? {
      NodesAllocated(t.left);
      NodesAllocated(t.right);
    }
  }

  function MkCell<T>(s: Side, p: RbNode?<T>, k: Color, a: RbNode?<T>, b: RbNode?<T>): Cell<T> {
    if s.Left? then Cell(p, k, a, b) else Cell(p, k, b, a)
  }

  /** `x` has parent `p`, colour `k`, child `a` on side `s` and child `b` on the other. */
  ghost predicate Has<T>(m: Memory<T>, x: RbNode<T>, p: RbNode?<T>, k: Color, s: Side, a: RbNode?<T>, b: RbNode?<T>) {
    x in m && m[x] == MkCell(s, p, k, a, b)
  }

  /** `m` links the nodes of `t` as `t` says, below parent `p`. */
  ghost predicate TreeRep<T>(m: Memory<T>, t: Tree<RbNode<T>>, p: RbNode?<T>) {
    t.Node? ==>
      && Has(m, t.n, p, t.color, Left, Ptr(t.left), Ptr(t.right))
      && TreeRep(m, t.left, t.n) && TreeRep(m, t.right, t.n)
  }

  /** `m` links the nodes of `c` as `c` says, with the pointer `x` in the hole and `root` in the root slot. */
  ghost predicate CtxRep<T>(m: Memory<T>, c: Ctx<RbNode<T>>, x: RbNode?<T>, root: RbNode?<T>) {
    if c.Top? then root == x
    else
      && Has(m, c.n, Par(c.up), c.color, c.side, x, Ptr(c.sib))
      && TreeRep(m, c.sib, c.n) && CtxRep(m, c.up, c.n, root)
  }

  /** `m` holds exactly the tree `Zip(c, t)`. */
  ghost predicate Rep<T>(m: Memory<T>, root: RbNode?<T>, c: Ctx<RbNode<T>>, t: Tree<RbNode<T>>) {
    && TreeRep(m, t, Par(c)) && CtxRep(m, c, Ptr(t), root)
    && Distinct(t) && CtxDistinct(c) && CtxNodes(c) !! Nodes(t) && m.Keys == CtxNodes(c) + Nodes(t)
  }

  lemma {:induction false} KeepTree<T>(m: Memory<T>, m': Memory<T>, t: Tree<RbNode<T>>, p: RbNode?<T>)
    requires TreeRep(m, t, p)
    requires forall x :: x in Nodes(t) && x in m ==> x in m' && m'[x] == m[x]
    ensures TreeRep(m', t, p)
  {
    if t.Node? {
      KeepTree(m, m', t.left, t.n);
      KeepTree(m, m', t.right, t.n);
    }
  }

  lemma {:induction false} KeepCtx<T>(m: Memory<T>, m': Memory<T>, c: Ctx<RbNode<T>>, x: RbNode?<T>, root: RbNode?<T>)
    requires CtxRep(m, c, x, root)
    requires forall y :: y in CtxNodes(c) && y in m ==> y in m' && m'[y] == m[y]
    ensures CtxRep(m', c, x, root)
  {
    if c.Frame? {
      KeepTree(m, m', c.sib, c.n);
      KeepCtx(m, m', c.up, c.n, root);
    }
  }

  lemma {:induction false} RootInside<T>(m: Memory<T>, c: Ctx<RbNode<T>>, x: RbNode?<T>, root: RbNode?<T>)
    requires CtxRep(m, c, x, root)
    ensures if c.Top? then root == x else root in CtxNodes(c)
  {
    if c.Frame? {
      RootInside(m, c.up, c.n, root);
    }
  }

  lemma MoveUp<T>(m: Memory<T>, root: RbNode?<T>, c: Ctx<RbNode<T>>, t: Tree<RbNode<T>>)
    requires c.Frame?
    ensures Rep(m, root, c, t) <==> Rep(m, root, c.up, c.Merge(t))
  {
    var u := c.Merge(t);
    assert Nodes(u) == Nodes(t) + {c.n} + Nodes(c.sib);
    assert TreeRep(m, u, Par(c.up)) <==> (
      Has(m, c.n, Par(c.up), c.color, c.side, Ptr(t), Ptr(c.sib)) && TreeRep(m, t, c.n) && TreeRep(m, c.sib, c.n));
  }

  lemma {:induction false} MoveTop<T>(m: Memory<T>, root: RbNode?<T>, c: Ctx<RbNode<T>>, t: Tree<RbNode<T>>)
    requires Rep(m, root, c, t)
    ensures Rep(m, root, Top, Zip(c, t))
  {
    if c.Frame? {
      MoveUp(m, root, c, t);
      MoveTop(m, root, c.up, c.Merge(t));
    }
  }

  /** A memory that differs at the parent of the hole, only by the pointer stored in the hole. */
  lemma FillHole<T>(m: Memory<T>, m': Memory<T>, c: Ctx<RbNode<T>>, x: RbNode?<T>, x': RbNode?<T>, root: RbNode?<T>,
      root': RbNode?<T>)
    requires CtxRep(m, c, x, root) && CtxDistinct(c)
    requires c.Top? ==> root' == x'
    requires c.Frame? ==> root' == root && Has(m', c.n, Par(c.up), c.color, c.side, x', Ptr(c.sib))
    requires forall y :: y in CtxNodes(c) && y != Par(c) && y in m ==> y in m' && m'[y] == m[y]
    ensures CtxRep(m', c, x', root')
  {
    if c.Frame? {
      KeepTree(m, m', c.sib, c.n);
      KeepCtx(m, m', c.up, c.n, root);
    }
  }

  /** A memory that differs at the root of a subtree, only by its parent. */
  lemma Reparent<T>(m: Memory<T>, m': Memory<T>, t: Tree<RbNode<T>>, p: RbNode?<T>, p': RbNode?<T>)
    requires TreeRep(m, t, p) && Distinct(t)
    requires t.Node? ==> Has(m', t.n, p', t.color, Left, Ptr(t.left), Ptr(t.right))
    requires forall y :: y in Nodes(t) && y != Ptr(t) && y in m ==> y in m' && m'[y] == m[y]
    ensures TreeRep(m', t, p')
  {
    if t.Node? {
      KeepTree(m, m', t.left, t.n);
      KeepTree(m, m', t.right, t.n);
    }
  }

  /** The pointers a rotation of `node` towards side `s` follows are there and differ. */
  ghost predicate Rotatable<T>(s: Side, m: Memory<T>, node: RbNode<T>) {
    && node in m
    && var y := m[node].Kid(s.Opp());
    && y != null && y != node && y in m && m[y].parent == node
    && (m[y].Kid(s) != null ==> m[y].Kid(s) in m && m[y].Kid(s) != node && m[y].Kid(s) != y)
    && var p := m[node].parent;
    (p != null ==> p in m && p != node && p != y && p != m[y].Kid(s) && (m[p].left == node <==> m[p].right != node))
  }

  /** What a rotation of `node` towards side `s` writes. */
  ghost predicate Rotated<T>(s: Side, m: Memory<T>, m': Memory<T>, node: RbNode<T>, root: RbNode?<T>, root': RbNode?<T>)
    requires Rotatable(s, m, node)
  {
    var y := m[node].Kid(s.Opp());
    var b := m[y].Kid(s);
    var p := m[node].parent;
    && m'.Keys == m.Keys
    && m'[node] == MkCell(s, y, m[node].color, m[node].Kid(s), b)
    && m'[y] == MkCell(s, p, m[y].color, node, m[y].Kid(s.Opp()))
    && (b != null ==> m'[b] == m[b].(parent := node))
    && (if p == null then root' == y
        else root' == root && m'[p] == if m[p].left == node then m[p].(left := y) else m[p].(right := y))
    && forall x :: x in m && x != node && x != y && x != b && x != p ==> m'[x] == m[x]
  }

  lemma CanRotate<T>(s: Side, m: Memory<T>, root: RbNode?<T>, c: Ctx<RbNode<T>>, t: Tree<RbNode<T>>)
    requires Rep(m, root, c, t) && t.Node? && t.Kid(s.Opp()).Node?
    ensures Rotatable(s, m, t.n)
  {
    var y := t.Kid(s.Opp());
    assert TreeRep(m, y, t.n) && Distinct(y);
    assert TreeRep(m, y.Kid(s), y.n);
    assert y.Kid(s).Node? ==> y.Kid(s).n in Nodes(y);
    if c.Frame? {
      assert c.n in CtxNodes(c);
      assert c.sib.Node? ==> c.sib.n in CtxNodes(c);
    }
  }

  lemma TurnTree<T>(s: Side, m: Memory<T>, m': Memory<T>, t: Tree<RbNode<T>>, p: RbNode?<T>, root: RbNode?<T>,
      root': RbNode?<T>)
    requires TreeRep(m, t, p) && Distinct(t) && t.Node? && t.Kid(s.Opp()).Node?
    requires Rotatable(s, m, t.n) && Rotated(s, m, m', t.n, root, root')
    requires p != null ==> p !in Nodes(t)
    ensures TreeRep(m', Turn(s, t), p)
  {
    var y := t.Kid(s.Opp());
    var b := y.Kid(s);
    assert Distinct(y) && TreeRep(m, y, t.n);
    KeepTree(m, m', t.Kid(s), t.n);
    KeepTree(m, m', y.Kid(s.Opp()), y.n);
    Reparent(m, m', b, y.n, t.n);
    assert TreeRep(m', Mk(s, t.Kid(s), t.n, t.color, b), y.n);
  }

  lemma TurnRep<T>(s: Side, m: Memory<T>, m': Memory<T>, c: Ctx<RbNode<T>>, t: Tree<RbNode<T>>, root: RbNode?<T>,
      root': RbNode?<T>)
    requires Rep(m, root, c, t) && t.Node? && t.Kid(s.Opp()).Node?
    requires Rotatable(s, m, t.n) && Rotated(s, m, m', t.n, root, root')
    ensures Rep(m', root', c, Turn(s, t))
  {
    TurnTree(s, m, m', t, Par(c), root, root');
    var y := t.Kid(s.Opp());
    assert TreeRep(m, y, t.n) && Nodes(y) <= Nodes(t);
    assert y.Kid(s).Node? ==> y.Kid(s).n in Nodes(y);
    FillHole(m, m', c, t.n, y.n, root, root');
  }
}
