/** Red-black trees as values: shapes, one-hole contexts (zippers) and the balance
    invariants. The pointer-level code of RbTree.dfy is proved against these. */
module RbShape {

  datatype Color = Red | Black

  datatype Side = Left | Right {
    function Opp(): Side {
      if Left? then Right else Left
    }
  }

  datatype Tree<N> = Leaf | Node(left: Tree<N>, n: N, color: Color, right: Tree<N>) {
    predicate IsRed() {
      Node? && color.Red?
    }

    function Kid(s: Side): Tree<N>
      requires Node?
    {
      if s.Left? then left else right
    }

    function Paint(c: Color): Tree<N>
      requires Node?
    {
      this.(color := c)
    }
  }

  /** The path from a hole up to the root: the hole is child `side` of `n`, whose other child is `sib`. */
  datatype Ctx<N> = Top | Frame(up: Ctx<N>, side: Side, n: N, color: Color, sib: Tree<N>) {
    function Depth(): nat {
      if Top? then 0 else 1 + up.Depth()
    }

    predicate UnderRed() {
      Frame? && color.Red?
    }

    /** The tree at the parent of the hole, once the hole is filled with `t`. */
    function Merge(t: Tree<N>): Tree<N>
      requires Frame?
    {
      Mk(side, t, n, color, sib)
    }

    /** The context of the sibling, once the hole is filled with `t`. */
    function Across(t: Tree<N>): Ctx<N>
      requires Frame?
    {
      Frame(up, side.Opp(), n, color, t)
    }
  }

  /** The tree whose child `s` is `a` and whose other child is `b`. */
  function Mk<N>(s: Side, a: Tree<N>, n: N, c: Color, b: Tree<N>): Tree<N> {
    if s.Left? then Node(a, n, c, b) else Node(b, n, c, a)
  }

  function Zip<N>(c: Ctx<N>, t: Tree<N>): Tree<N> {
    if c.Top? then t else Zip(c.up, c.Merge(t))
  }

  function Seq<N>(t: Tree<N>): seq<N> {
    if t.Leaf? then [] else Seq(t.left) + [t.n] + Seq(t.right)
  }

  /** The context of child `s` of `t`. */
  function Into<N>(c: Ctx<N>, t: Tree<N>, s: Side): Ctx<N>
    requires t.Node?
  {
    Frame(c, s, t.n, t.color, t.Kid(s.Opp()))
  }

  /** What precedes the hole of `c` in in-order. */
  function Before<N>(c: Ctx<N>): seq<N> {
    if c.Top? then []
    else if c.side.Left? then Before(c.up)
    else Before(c.up) + Seq(c.sib) + [c.n]
  }

  /** What follows the hole of `c` in in-order. */
  function After<N>(c: Ctx<N>): seq<N> {
    if c.Top? then []
    else if c.side.Left? then [c.n] + Seq(c.sib) + After(c.up)
    else After(c.up)
  }

  ghost function Nodes<N>(t: Tree<N>): set<N> {
    if t.Leaf? then {} else Nodes(t.left) + {t.n} + Nodes(t.right)
  }

  ghost function CtxNodes<N>(c: Ctx<N>): set<N> {
    if c.Top? then {} else CtxNodes(c.up) + {c.n} + Nodes(c.sib)
  }

  /** No node occurs twice. */
  ghost predicate Distinct<N>(t: Tree<N>) {
    t.Node? ==>
      && Distinct(t.left) && Distinct(t.right)
      && t.n !in Nodes(t.left) && t.n !in Nodes(t.right)
      && Nodes(t.left) !! Nodes(t.right)
  }

  ghost predicate CtxDistinct<N>(c: Ctx<N>) {
    c.Frame? ==>
      && CtxDistinct(c.up) && Distinct(c.sib)
      && c.n !in CtxNodes(c.up) && c.n !in Nodes(c.sib)
      && CtxNodes(c.up) !! Nodes(c.sib)
  }

  /** Every path has `h` black nodes and no red node has a red child. */
  ghost predicate Rb<N>(t: Tree<N>, h: nat) {
    match t
    case Leaf => h == 0
    case Node(l, _, Red, r) => !l.IsRed() && !r.IsRed() && Rb(l, h) && Rb(r, h)
    case Node(l, _, Black, r) => h > 0 && Rb(l, h - 1) && Rb(r, h - 1)
  }

  /** `c` becomes a balanced tree once its hole is filled with a black-rooted tree of black height `h`. */
  ghost predicate CtxRb<N>(c: Ctx<N>, h: nat) {
    match c
    case Top => true
    case Frame(up, _, _, Red, sib) =>
      up.Frame? && up.color.Black? && !sib.IsRed() && Rb(sib, h) && CtxRb(up, h)
    case Frame(up, _, _, Black, sib) => Rb(sib, h) && CtxRb(up, h + 1)
  }

  ghost function BlackHeight<N>(t: Tree<N>): nat {
    if t.Leaf? then 0 else BlackHeight(t.left) + if t.color.Black? then 1 else 0
  }

  /** The red-black tree invariant: black root, equal black heights, no red-red edge. */
  ghost predicate Balanced<N>(t: Tree<N>) {
    !t.IsRed() && Rb(t, BlackHeight(t))
  }

  lemma {:induction false} RbHeight<N>(t: Tree<N>, h: nat)
    requires Rb(t, h)
    ensures h == BlackHeight(t)
  {
    if t.Node? {
      RbHeight(t.left, if t.color.Black? then h - 1 else h);
    }
  }

  lemma {:induction false} ZipSeq<N>(c: Ctx<N>, t: Tree<N>)
    ensures Seq(Zip(c, t)) == Before(c) + Seq(t) + After(c)
  {
    if c.Frame? {
      ZipSeq(c.up, c.Merge(t));
    }
  }

  lemma {:induction false} ZipNodes<N>(c: Ctx<N>, t: Tree<N>)
    ensures Nodes(Zip(c, t)) == CtxNodes(c) + Nodes(t)
    ensures Distinct(Zip(c, t)) <==> CtxDistinct(c) && Distinct(t) && CtxNodes(c) !! Nodes(t)
  {
    if c.Frame? {
      ZipNodes(c.up, c.Merge(t));
    }
  }

  lemma SameSeq<N>(c: Ctx<N>, t: Tree<N>, u: Tree<N>)
    requires Seq(t) == Seq(u) && Nodes(t) == Nodes(u)
    ensures Seq(Zip(c, t)) == Seq(Zip(c, u)) && Nodes(Zip(c, t)) == Nodes(Zip(c, u))
  {
    ZipSeq(c, t);
    ZipSeq(c, u);
    ZipNodes(c, t);
    ZipNodes(c, u);
  }

  lemma {:induction false} SeqNodes<N>(t: Tree<N>, x: N)
    ensures x in Seq(t) <==> x in Nodes(t)
  {
    if t.Node? {
      SeqNodes(t.left, x);
      SeqNodes(t.right, x);
    }
  }

  /** Filling the hole of a balanced context with a tree of the expected height balances the whole. */
  lemma {:induction false} ZipBalanced<N>(c: Ctx<N>, t: Tree<N>, h: nat)
    requires Rb(t, h) && CtxRb(c, h)
    requires t.IsRed() ==> c.Frame? && c.color.Black?
    ensures Balanced(Zip(c, t))
  {
    if c.Top? {
      RbHeight(t, h);
    } else {
      ZipBalanced(c.up, c.Merge(t), if c.color.Black? then h + 1 else h);
    }
  }

  /** Blackening the root removes the last violation. */
  lemma FinishBalanced<N>(c: Ctx<N>, t: Tree<N>, h: nat)
    requires Rb(t, h) && CtxRb(c, h) && t.Node?
    requires t.IsRed() ==> !c.UnderRed()
    ensures Zip(c, t).Node? && Balanced(Zip(c, t).Paint(Black))
  {
    if c.Top? {
      RbHeight(t.left, if t.color.Black? then h - 1 else h);
    } else {
      ZipBalanced(c, t, h);
      ZipNodes(c, t);
      assert t.n in Nodes(Zip(c, t));
    }
  }

  /** Every split of a balanced tree into context and subtree is balanced on both sides. */
  lemma {:induction false} UnzipBalanced<N>(c: Ctx<N>, t: Tree<N>)
    requires Balanced(Zip(c, t))
    ensures Rb(t, BlackHeight(t)) && CtxRb(c, BlackHeight(t))
    ensures t.IsRed() ==> c.Frame? && c.color.Black?
  {
    if c.Frame? {
      var m := c.Merge(t);
      UnzipBalanced(c.up, m);
      RbHeight(t, BlackHeight(m.left));
    }
  }

  /** The value of a rotation: side Left for `__rb_rotate_left`, Right for `__rb_rotate_right`. */
  ghost function Turn<N>(s: Side, t: Tree<N>): (r: Tree<N>)
    requires t.Node? && t.Kid(s.Opp()).Node?
    ensures Seq(r) == Seq(t) && Nodes(r) == Nodes(t)
    ensures Distinct(t) <==> Distinct(r)
  {
    var y := t.Kid(s.Opp());
    var r := Mk(s, Mk(s, t.Kid(s), t.n, t.color, y.Kid(s)), y.n, y.color, y.Kid(s.Opp()));
    assert Seq(r) == if s.Left? then Seq(t.left) + [t.n] + Seq(y.left) + [y.n] + Seq(y.right)
                                else Seq(y.left) + [y.n] + Seq(y.right) + [t.n] + Seq(t.right);
    r
  }

  /** `d`, a path inside the subtree at the hole of `c`, continued by `c`. */
  function Join<N>(d: Ctx<N>, c: Ctx<N>): Ctx<N> {
    if d.Top? then c else d.(up := Join(d.up, c))
  }

  lemma {:induction false} JoinZip<N>(d: Ctx<N>, c: Ctx<N>, t: Tree<N>)
    ensures Zip(Join(d, c), t) == Zip(c, Zip(d, t))
  {
    if d.Frame? {
      JoinZip(d.up, c, d.Merge(t));
    }
  }

  lemma {:induction false} JoinNodes<N>(d: Ctx<N>, c: Ctx<N>)
    ensures CtxNodes(Join(d, c)) == CtxNodes(d) + CtxNodes(c)
  {
    if d.Frame? {
      JoinNodes(d.up, c);
    }
  }

  lemma {:induction false} ZipRoot<N>(d: Ctx<N>, t: Tree<N>)
    requires t.Node?
    ensures Zip(d, t).Node? && (if d.Top? then Zip(d, t) == t else Zip(d, t).n in CtxNodes(d))
  {
    if d.Frame? {
      ZipRoot(d.up, d.Merge(t));
    }
  }

  /** `d` goes left at every step. */
  predicate AllLeft<N>(d: Ctx<N>) {
    d.Top? || (d.side.Left? && AllLeft(d.up))
  }

  lemma {:induction false} AllLeftBefore<N>(d: Ctx<N>)
    requires AllLeft(d)
    ensures Before(d) == []
  {
    if d.Frame? {
      AllLeftBefore(d.up);
    }
  }

  lemma ThinSeq<N>(c: Ctx<N>, t: Tree<N>, s: Side)
    requires t.Node? && t.Kid(s.Opp()).Leaf?
    ensures Seq(Zip(c, t.Kid(s))) == Before(c) + Seq(t.left) + Seq(t.right) + After(c)
  {
    ZipSeq(c, t.Kid(s));
  }

  lemma Regroup<N>(a: seq<N>, l: seq<N>, x: N, r: seq<N>, b: seq<N>)
    ensures a + (l + [x] + r) + b == (a + l) + [x] + (r + b) == a + l + ([x] + r) + b
    ensures [x] + (r + b) == [x] + r + b
  {
  }
}
