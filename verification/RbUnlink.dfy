/** What `rb_erase` does to the links before any rebalancing: a node with at most one child is
    spliced out, and a node with two children is replaced by its successor. */
module RbUnlink {
  import opened RbShape
  import opened RbMemory
  import opened RbFixup

  function SetParent<T>(m: Memory<T>, x: RbNode?<T>, p: RbNode?<T>): Memory<T>
    requires x != null ==> x in m
  {
    if x == null then m else m[x := m[x].(parent := p)]
  }

  /** The slot of `p` that held `x` now holds `y`; the root slot, when `p` is null, is not in memory. */
  function SetSlot<T>(m: Memory<T>, p: RbNode?<T>, x: RbNode<T>, y: RbNode?<T>): Memory<T>
    requires p != null ==> p in m
  {
    if p == null then m else m[p := if m[p].left == x then m[p].(left := y) else m[p].(right := y)]
  }

  function RootSlot<T>(root: RbNode?<T>, p: RbNode?<T>, y: RbNode?<T>): RbNode?<T> {
    if p == null then y else root
  }

  /** `x` is cut out and its only child `y` moves up. */
  function Spliced<T>(m: Memory<T>, x: RbNode<T>, y: RbNode?<T>): Memory<T>
    requires x in m && (m[x].parent != null ==> m[x].parent in m) && (y != null ==> y in m)
  {
    SetSlot(SetParent(m, y, m[x].parent), m[x].parent, x, y) - {x}
  }

  /** `y`, not linked anywhere, takes the place of `x`. */
  function Replaced<T>(m: Memory<T>, x: RbNode<T>, y: RbNode<T>): Memory<T>
    requires x in m && (m[x].parent != null ==> m[x].parent in m)
    requires (m[x].left != null ==> m[x].left in m) && (m[x].right != null ==> m[x].right in m)
  {
    SetSlot(SetParent(SetParent(m[y := m[x]], m[x].left, y), m[x].right, y), m[x].parent, x, y) - {x}
  }

  ghost predicate WasSpliced<T>(m: Memory<T>, n: Memory<T>, x: RbNode<T>, y: RbNode?<T>)
    requires x in m
  {
    var p := m[x].parent;
    && (forall z :: z in m && z != x ==> z in n)
    && (y != null && y in n && y in m ==> n[y] == m[y].(parent := p))
    && (p != null && p in n && p in m ==> n[p] == if m[p].left == x then m[p].(left := y) else m[p].(right := y))
    && forall z :: z in m && z != x && z != y && z != p ==> n[z] == m[z]
  }

  lemma SplicedCells<T>(m: Memory<T>, x: RbNode<T>, y: RbNode?<T>)
    requires x in m && y != x && m[x].parent != x && (m[x].parent != null ==> m[x].parent in m && y != m[x].parent)
      && (y != null ==> y in m)
    ensures WasSpliced(m, Spliced(m, x, y), x, y) && Spliced(m, x, y).Keys == m.Keys - {x}
  {
  }

  lemma SplicedFrom<T>(m: Memory<T>, n: Memory<T>, x: RbNode<T>, y: RbNode?<T>)
    requires x in m && y != x && m[x].parent != x && (m[x].parent != null ==> m[x].parent in m && y != m[x].parent)
      && (y != null ==> y in m)
    requires WasSpliced(m, n, x, y) && n.Keys == m.Keys - {x}
    ensures n == Spliced(m, x, y)
  {
    SplicedCells(m, x, y);
    assert forall z :: z in n ==> n[z] == Spliced(m, x, y)[z];
  }

  lemma SpliceRep<T>(m: Memory<T>, root: RbNode?<T>, c: Ctx<RbNode<T>>, t: Tree<RbNode<T>>, s: Side)
    requires Rep(m, root, c, t) && t.Node? && t.Kid(s.Opp()).Leaf?
    ensures m[t.n].parent == Par(c) && (Par(c) != null ==> Par(c) in m)
      && (Ptr(t.Kid(s)) != null ==> Ptr(t.Kid(s)) in m)
    ensures Rep(Spliced(m, t.n, Ptr(t.Kid(s))), RootSlot(root, Par(c), Ptr(t.Kid(s))), c, t.Kid(s))
  {
    var k := t.Kid(s);
    AroundFocus(m, root, c, t);
    assert Nodes(t) == Nodes(k) + {t.n};
    var m' := Spliced(m, t.n, Ptr(k));
    Reparent(m, m', k, t.n, Par(c));
    FillHole(m, m', c, t.n, Ptr(k), root, RootSlot(root, Par(c), Ptr(k)));
  }

  /** The pointers around the subtree in focus are in memory and differ from each other. */
  lemma AroundFocus<T>(m: Memory<T>, root: RbNode?<T>, c: Ctx<RbNode<T>>, t: Tree<RbNode<T>>)
    requires Rep(m, root, c, t) && t.Node?
    ensures Has(m, t.n, Par(c), t.color, Left, Ptr(t.left), Ptr(t.right))
    ensures Par(c) != null ==> Par(c) in m && Par(c) in CtxNodes(c) && (m[Par(c)].left == t.n <==> c.side.Left?)
    ensures t.left.Node? ==> t.left.n in m && t.left.n in Nodes(t.left)
    ensures t.right.Node? ==> t.right.n in m && t.right.n in Nodes(t.right)
  {
    assert Nodes(t) == Nodes(t.left) + {t.n} + Nodes(t.right);
    if c.Frame? && c.sib.Node? { assert c.sib.n in CtxNodes(c); }
  }

  lemma ReplacedCells<T>(m: Memory<T>, x: RbNode<T>, y: RbNode<T>)
    requires x in m && y !in m
    requires var l, r, p := m[x].left, m[x].right, m[x].parent;
      && (l != null ==> l in m && l != x && l != r && l != p) && (r != null ==> r in m && r != x && r != p)
      && (p != null ==> p in m && p != x)
    ensures var l, r, p, m' := m[x].left, m[x].right, m[x].parent, Replaced(m, x, y);
      && m'.Keys == m.Keys - {x} + {y} && m'[y] == m[x]
      && (l != null ==> m'[l] == m[l].(parent := y)) && (r != null ==> m'[r] == m[r].(parent := y))
      && (p != null ==> m'[p] == if m[p].left == x then m[p].(left := y) else m[p].(right := y))
      && forall z :: z in m && z != x && z != l && z != r && z != p ==> m'[z] == m[z]
  {
  }

  lemma ReplaceRep<T>(m: Memory<T>, root: RbNode?<T>, c: Ctx<RbNode<T>>, t: Tree<RbNode<T>>, y: RbNode<T>)
    requires Rep(m, root, c, t) && t.Node? && y !in m
    ensures m[t.n] == Cell(Par(c), t.color, Ptr(t.left), Ptr(t.right))
    ensures (Par(c) != null ==> Par(c) in m) && (t.left.Node? ==> t.left.n in m) && (t.right.Node? ==> t.right.n in m)
    ensures Rep(Replaced(m, t.n, y), RootSlot(root, Par(c), y), c, t.(n := y))
  {
    AroundFocus(m, root, c, t);
    assert Nodes(t) == Nodes(t.left) + {t.n} + Nodes(t.right);
    ReplacedCells(m, t.n, y);
    ReplaceTree(m, Replaced(m, t.n, y), t, Par(c), y);
    FillHole(m, Replaced(m, t.n, y), c, t.n, y, root, RootSlot(root, Par(c), y));
  }

  lemma ReplaceTree<T>(m: Memory<T>, m': Memory<T>, t: Tree<RbNode<T>>, p: RbNode?<T>, y: RbNode<T>)
    requires TreeRep(m, t, p) && Distinct(t) && t.Node? && y !in Nodes(t) && y in m' && m'[y] == m[t.n]
    requires forall x :: x in Nodes(t) && x in m && x != t.n ==>
      x in m' && m'[x] == if x == Ptr(t.left) || x == Ptr(t.right) then m[x].(parent := y) else m[x]
    ensures TreeRep(m', t.(n := y), p) && Distinct(t.(n := y)) && Nodes(t.(n := y)) == Nodes(t) - {t.n} + {y}
  {
    assert Nodes(t) == Nodes(t.left) + {t.n} + Nodes(t.right);
    Reparent(m, m', t.left, t.n, y);
    Reparent(m, m', t.right, t.n, y);
  }

  /** The pointers `rb_erase` follows when `x` has two children and `y` is its successor. */
  ghost predicate Replaceable<T>(m: Memory<T>, x: RbNode<T>, y: RbNode<T>) {
    && x in m && y in m && x != y
    && var l, r, p := m[x].left, m[x].right, m[x].parent;
    && l != null && r != null && l in m && r in m && l != r && l != x && r != x && l != y
    && (p != null ==> p in m && p != x && p != l && p != r && p != y)
    && var q, k := m[y].parent, m[y].right;
    && q != null && q in m && q != y && q != l && m[y].left == null && (p != null ==> q != p)
    && (if q == x then r == y else r != y && m[q].left == y)
    && (k != null ==> k in m && k != x && k != y && k != l && k != q && k != p && k != r && m[k].parent == y)
  }

  /** What `rb_erase` writes when `x` has two children and `y` is its successor. */
  ghost predicate TookPlace<T>(m: Memory<T>, m': Memory<T>, x: RbNode<T>, y: RbNode<T>)
    requires Replaceable(m, x, y)
  {
    var l, r, p := m[x].left, m[x].right, m[x].parent;
    var q, k := m[y].parent, m[y].right;
    && m'.Keys == m.Keys
    && m'[y] == Cell(p, m[x].color, l, if q == x then k else r)
    && m'[l] == m[l].(parent := y)
    && (p != null ==> m'[p] == if m[p].left == x then m[p].(left := y) else m[p].(right := y))
    && (q != x ==> m'[q] == m[q].(left := k, parent := if q == r then y else m[q].parent))
    && (q != x && q != r ==> m'[r] == m[r].(parent := y))
    && (q != x && k != null ==> m'[k] == m[k].(parent := q))
    && forall z :: z in m && z != x && z != y && z != l && z != p && (q == x || (z != q && z != r && z != k)) ==>
      m'[z] == m[z]
  }

  /** The cells around `x` once `y` is cut out. */
  lemma AroundReplaced<T>(m: Memory<T>, x: RbNode<T>, y: RbNode<T>)
    requires Replaceable(m, x, y)
    ensures var n := Spliced(m, y, m[y].right);
      && x in n && (n[x].parent != null ==> n[x].parent in n)
      && (n[x].left != null ==> n[x].left in n) && (n[x].right != null ==> n[x].right in n)
      && n[x] == if m[y].parent == x then m[x].(right := m[y].right) else m[x]
  {
    SplicedCells(m, y, m[y].right);
  }

  lemma TookPlaceCells<T>(m: Memory<T>, m': Memory<T>, x: RbNode<T>, y: RbNode<T>)
    requires Replaceable(m, x, y) && TookPlace(m, m', x, y)
    requires var n := Spliced(m, y, m[y].right);
      && x in n && (n[x].parent != null ==> n[x].parent in n)
      && (n[x].left != null ==> n[x].left in n) && (n[x].right != null ==> n[x].right in n)
      && n[x] == if m[y].parent == x then m[x].(right := m[y].right) else m[x]
    ensures m' - {x} == Replaced(Spliced(m, y, m[y].right), x, y)
  {
    var n := Spliced(m, y, m[y].right);
    SplicedCells(m, y, m[y].right);
    ReplacedCells(n, x, y);
    var f := Replaced(n, x, y);
    assert f[y] == n[x].(parent := m[x].parent);
    assert forall z :: z in f ==> z in m' && f[z] == m'[z];
  }

  lemma {:induction false} MoveDown<T>(m: Memory<T>, root: RbNode?<T>, d: Ctx<RbNode<T>>, c: Ctx<RbNode<T>>,
      t: Tree<RbNode<T>>)
    ensures Rep(m, root, Join(d, c), t) <==> Rep(m, root, c, Zip(d, t))
  {
    if d.Frame? {
      MoveUp(m, root, Join(d, c), t);
      MoveDown(m, root, d.up, c, d.Merge(t));
    }
  }

  /** The context around the right subtree of `t`. */
  function RightOf<N>(c: Ctx<N>, t: Tree<N>): Ctx<N>
    requires t.Node?
  {
    Frame(c, Right, t.n, t.color, t.left)
  }

  lemma CanReplace<T>(m: Memory<T>, root: RbNode?<T>, c: Ctx<RbNode<T>>, t: Tree<RbNode<T>>, d: Ctx<RbNode<T>>,
      u: Tree<RbNode<T>>)
    requires Rep(m, root, c, t) && t.Node? && t.left.Node? && t.right == Zip(d, u)
    requires AllLeft(d) && u.Node? && u.left.Leaf?
    requires Rep(m, root, Join(d, RightOf(c, t)), u)
    ensures Replaceable(m, t.n, u.n) && m[u.n].right == Ptr(u.right)
  {
    var e := Join(d, RightOf(c, t));
    AroundFocus(m, root, c, t);
    AroundFocus(m, root, e, u);
    ZipRoot(d, u);
    assert TreeRep(m, t.left, t.n) && TreeRep(m, u.right, u.n);
    Unfold(t);
    Unfold(u);
    ZipNodes(d, u);
  }

  lemma Unfold<N>(t: Tree<N>)
    requires Distinct(t) && t.Node?
    ensures Nodes(t) == Nodes(t.left) + {t.n} + Nodes(t.right) && t.n in Nodes(t) && Nodes(t.right) <= Nodes(t)
    ensures Nodes(t.left) !! Nodes(t.right) && t.n !in Nodes(t.left) && t.n !in Nodes(t.right)
    ensures Distinct(t.left) && Distinct(t.right)
  {
  }

  /** The memory after `TakePlace`, with the focus at the hole the successor left. */
  lemma TookPlaceRep<T>(m: Memory<T>, m': Memory<T>, root: RbNode?<T>, c: Ctx<RbNode<T>>, t: Tree<RbNode<T>>,
      d: Ctx<RbNode<T>>, u: Tree<RbNode<T>>)
    requires t.Node? && t.right == Zip(d, u) && u.Node? && u.left.Leaf? && Rep(m, root, Join(d, RightOf(c, t)), u)
    requires Replaceable(m, t.n, u.n) && TookPlace(m, m', t.n, u.n) && m[u.n].right == Ptr(u.right)
    ensures Rep(m' - {t.n}, RootSlot(root, Par(c), u.n), Join(d, RightOf(c, t.(n := u.n))), u.right)
  {
    var n := Spliced(m, u.n, Ptr(u.right));
    SpliceRep(m, root, Join(d, RightOf(c, t)), u, Right);
    MoveDown(n, root, d, RightOf(c, t), u.right);
    var t1 := t.(right := Zip(d, u.right));
    MoveUp(n, root, RightOf(c, t), Zip(d, u.right));
    ReplaceRep(n, root, c, t1, u.n);
    AroundReplaced(m, t.n, u.n);
    TookPlaceCells(m, m', t.n, u.n);
    var r := RootSlot(root, Par(c), u.n);
    MoveUp(m' - {t.n}, r, RightOf(c, t.(n := u.n)), Zip(d, u.right));
    MoveDown(m' - {t.n}, r, d, RightOf(c, t.(n := u.n)), u.right);
  }

  lemma FirstOfRight<N>(d: Ctx<N>, u: Tree<N>)
    requires AllLeft(d) && u.Node? && u.left.Leaf?
    ensures Seq(Zip(d, u)) == [u.n] + Seq(Zip(d, u.right))
  {
    ZipSeq(d, u);
    ZipSeq(d, u.right);
    AllLeftBefore(d);
  }

  lemma FullSeq<N>(c: Ctx<N>, t: Tree<N>, d: Ctx<N>, u: Tree<N>)
    requires t.Node? && t.right == Zip(d, u) && AllLeft(d) && u.Node? && u.left.Leaf?
    ensures Seq(Zip(Join(d, RightOf(c, t.(n := u.n))), u.right)) == Before(c) + Seq(t.left) + Seq(t.right) + After(c)
  {
    var r := Zip(d, u.right);
    var v := Node(t.left, u.n, t.color, r);
    JoinZip(d, RightOf(c, t.(n := u.n)), u.right);
    ZipSeq(c, v);
    FirstOfRight(d, u);
    Regroup(Before(c), Seq(t.left), u.n, Seq(r), After(c));
  }

  /** Moving the successor into the place of the erased node keeps the balance, up to one black node. */
  lemma FullBalance<N>(c: Ctx<N>, t: Tree<N>, d: Ctx<N>, u: Tree<N>)
    requires Balanced(Zip(c, t)) && t.Node? && t.right == Zip(d, u) && u.Node? && u.left.Leaf?
    ensures var e := Join(d, RightOf(c, t.(n := u.n)));
      if u.color.Red? then Balanced(Zip(e, u.right)) else BlackHeight(u) > 0 && EraseInv(e, u.right, BlackHeight(u) - 1)
  {
    var e := Join(d, RightOf(c, t.(n := u.n)));
    JoinZip(d, RightOf(c, t.(n := u.n)), u);
    RenameBalance(c, t, u.n);
    assert Zip(e, u) == Zip(c, t.(n := u.n));
    ThinBalance(e, u, Right);
  }
}
