/** The rebalancing steps of src/rbtree.c as functions on context and subtree, and what each of them keeps. */
module RbFixup {
  import opened RbShape

  ghost predicate CanInsertStep<N>(c: Ctx<N>, t: Tree<N>) {
    && t.IsRed() && c.UnderRed() && c.up.Frame? && c.up.color.Black?
  }

  /** The value of one pass of the insertion loop: recolour and climb, or rotate and stop. */
  ghost function InsertStepped<N>(c: Ctx<N>, t: Tree<N>): (r: (Ctx<N>, Tree<N>))
    requires CanInsertStep(c, t)
    ensures r.1.IsRed() && r.0.Depth() < c.Depth()
  {
    var g := c.up;
    var u := c.Merge(t);
    if g.sib.IsRed() then (g.up, g.(sib := g.sib.Paint(Black)).Merge(u.Paint(Black)).Paint(Red))
    else
      var v := (if c.side == g.side then u else Turn(g.side, u)).Paint(Black);
      var w := Turn(g.side.Opp(), g.Merge(v).Paint(Red));
      (Frame(g.up, g.side, w.n, Black, w.Kid(g.side.Opp())), w.Kid(g.side))
  }

  /** What the insertion loop keeps: the only possible violation is the edge above the focus. */
  ghost predicate InsertInv<N>(c: Ctx<N>, t: Tree<N>, h: nat) {
    t.IsRed() && Rb(t, h) && CtxRb(c, h)
  }

  lemma InsertStepBalance<N>(c: Ctx<N>, t: Tree<N>, h: nat)
    requires CanInsertStep(c, t) && InsertInv(c, t, h)
    ensures var (c', t') := InsertStepped(c, t); InsertInv(c', t', if c.up.sib.IsRed() then h + 1 else h)
  {
    var g := c.up;
    var (c', t') := InsertStepped(c, t);
    assert CtxRb(g, h) && Rb(c.sib, h) && Rb(g.sib, h);
    if g.sib.IsRed() {
      assert Rb(c.Merge(t).Paint(Black), h + 1) && Rb(g.sib.Paint(Black), h + 1);
    } else if c.side == g.side {
      assert t' == t;
    } else {
      assert Rb(t.left, h) && Rb(t.right, h);
    }
  }

  lemma InsertStepSeq<N>(c: Ctx<N>, t: Tree<N>)
    requires CanInsertStep(c, t)
    ensures var (c', t') := InsertStepped(c, t);
      && Seq(Zip(c', t')) == Seq(Zip(c, t))
      && CtxNodes(c') + Nodes(t') == CtxNodes(c) + Nodes(t)
  {
    var g := c.up;
    var u := c.Merge(t);
    var (c', t') := InsertStepped(c, t);
    assert Zip(c, t) == Zip(g, u) == Zip(g.up, g.Merge(u));
    if g.sib.IsRed() {
      SameSeq(g.up, g.Merge(u), t');
    } else {
      var v := (if c.side == g.side then u else Turn(g.side, u)).Paint(Black);
      assert Seq(v) == Seq(u) && Nodes(v) == Nodes(u);
      SameSeq(g.up, g.Merge(u), g.Merge(v).Paint(Red));
      SameSeq(g.up, g.Merge(v).Paint(Red), c'.Merge(t'));
    }
    ZipNodes(c, t);
    ZipNodes(c', t');
  }

  lemma InsertedSeq<N>(c: Ctx<N>, x: N, t: Tree<N>)
    requires t.Node? && Seq(t) == Seq(Zip(c, Node(Leaf, x, Red, Leaf)))
    ensures Seq(t.Paint(Black)) == Before(c) + [x] + After(c)
  {
    ZipSeq(c, Node(Leaf, x, Red, Leaf));
    assert Seq(Node(Leaf, x, Red, Leaf)) == [x];
  }

  /** What the erasure loop keeps: the subtree at the focus is one black node short, unless its root
      is red and can be blackened. */
  ghost predicate EraseInv<N>(c: Ctx<N>, t: Tree<N>, h: nat) {
    CtxRb(c, h + 1) && if t.IsRed() then Rb(t.Paint(Black), h + 1) else Rb(t, h)
  }

  /** The red sibling is rotated above the parent. */
  ghost function RaiseSib<N>(c: Ctx<N>): Ctx<N>
    requires c.Frame? && c.sib.Node?
  {
    Frame(Frame(c.up, c.side, c.sib.n, Black, c.sib.Kid(c.side.Opp())), c.side, c.n, Red, c.sib.Kid(c.side))
  }

  /** The sibling's red inner child is rotated above it. */
  ghost function TurnSib<N>(c: Ctx<N>): Ctx<N>
    requires c.Frame? && c.sib.Node? && c.sib.Kid(c.side).Node?
  {
    var b := c.sib.Kid(c.side);
    c.(sib := Turn(c.side.Opp(), Mk(c.side, b.Paint(Black), c.sib.n, Red, c.sib.Kid(c.side.Opp()))))
  }

  /** The final rotation: a tree for the hole of `c.up`. */
  ghost function Refill<N>(c: Ctx<N>, t: Tree<N>): Tree<N>
    requires c.Frame? && c.sib.Node? && c.sib.Kid(c.side.Opp()).Node?
  {
    var o := c.sib;
    Mk(c.side, Mk(c.side, t, c.n, Black, o.Kid(c.side)), o.n, c.color, o.Kid(c.side.Opp()).Paint(Black))
  }

  lemma RaiseSibKeeps<N>(c: Ctx<N>, t: Tree<N>, h: nat)
    requires EraseInv(c, t, h) && c.Frame? && c.sib.IsRed()
    ensures c.color.Black? && EraseInv(RaiseSib(c), t, h)
    ensures Seq(Zip(RaiseSib(c), t)) == Seq(Zip(c, t)) && CtxNodes(RaiseSib(c)) == CtxNodes(c)
  {
    assert Rb(c.sib, h + 1);
    var r := RaiseSib(c);
    assert CtxRb(r.up, h + 1);
    SameSeq(c.up, c.Merge(t), r.up.Merge(r.Merge(t)));
  }

  lemma ReddenSibKeeps<N>(c: Ctx<N>, t: Tree<N>, h: nat)
    requires EraseInv(c, t, h) && c.Frame? && !t.IsRed() && c.sib.Node? && c.sib.color.Black?
    requires !c.sib.left.IsRed() && !c.sib.right.IsRed()
    ensures EraseInv(c.up, c.(sib := c.sib.Paint(Red)).Merge(t), if c.color.Red? then h else h + 1)
    ensures Seq(Zip(c.up, c.(sib := c.sib.Paint(Red)).Merge(t))) == Seq(Zip(c, t))
    ensures Nodes(Zip(c.up, c.(sib := c.sib.Paint(Red)).Merge(t))) == Nodes(Zip(c, t))
  {
    SameSeq(c.up, c.Merge(t), c.(sib := c.sib.Paint(Red)).Merge(t));
  }

  lemma TurnSibKeeps<N>(c: Ctx<N>, t: Tree<N>, h: nat)
    requires EraseInv(c, t, h) && c.Frame? && c.sib.Node? && c.sib.color.Black?
    requires c.sib.Kid(c.side).IsRed() && !c.sib.Kid(c.side.Opp()).IsRed()
    ensures EraseInv(TurnSib(c), t, h)
    ensures TurnSib(c).sib.color.Black? && TurnSib(c).sib.Kid(c.side.Opp()).IsRed()
    ensures Seq(Zip(TurnSib(c), t)) == Seq(Zip(c, t)) && CtxNodes(TurnSib(c)) == CtxNodes(c)
  {
    var b := c.sib.Kid(c.side);
    assert Rb(b, h);
    var sib' := Mk(c.side, b.Paint(Black), c.sib.n, Red, c.sib.Kid(c.side.Opp()));
    assert Seq(b.Paint(Black)) == Seq(b) && Nodes(b.Paint(Black)) == Nodes(b);
    assert Seq(sib') == Seq(c.sib) && Nodes(sib') == Nodes(c.sib);
    assert Rb(b.left, h) && Rb(b.right, h) && Rb(c.sib.Kid(c.side.Opp()), h);
    assert Rb(TurnSib(c).sib, h + 1);
    SameSeq(c.up, c.Merge(t), TurnSib(c).Merge(t));
  }

  lemma RefillSeq<N>(c: Ctx<N>, t: Tree<N>)
    requires c.Frame? && c.sib.Node? && c.sib.Kid(c.side.Opp()).Node?
    ensures Seq(Refill(c, t)) == Seq(c.Merge(t)) && Nodes(Refill(c, t)) == Nodes(c.Merge(t))
  {
    var o, f := c.sib, c.sib.Kid(c.side.Opp());
    var l := Mk(c.side, t, c.n, Black, o.Kid(c.side));
    assert Seq(f.Paint(Black)) == Seq(f) && Nodes(f.Paint(Black)) == Nodes(f);
    assert c.side.Left? ==> Seq(c.Merge(t)) == Seq(l) + [o.n] + Seq(f);
    assert c.side.Right? ==> Seq(c.Merge(t)) == Seq(f) + [o.n] + Seq(l);
  }

  lemma RefillKeeps<N>(c: Ctx<N>, t: Tree<N>, h: nat)
    requires EraseInv(c, t, h) && c.Frame? && !t.IsRed() && c.sib.Node? && c.sib.color.Black?
    requires c.sib.Kid(c.side.Opp()).IsRed()
    ensures Balanced(Zip(c.up, Refill(c, t)))
    ensures Seq(Zip(c.up, Refill(c, t))) == Seq(Zip(c, t)) && Nodes(Zip(c.up, Refill(c, t))) == CtxNodes(c) + Nodes(t)
  {
    assert Rb(c.sib.Kid(c.side.Opp()), h);
    RefillSeq(c, t);
    SameSeq(c.up, c.Merge(t), Refill(c, t));
    ZipNodes(c, t);
    ZipBalanced(c.up, Refill(c, t), if c.color.Red? then h + 1 else h + 2);
  }

  lemma BlackenKeeps<N>(c: Ctx<N>, t: Tree<N>, h: nat)
    requires EraseInv(c, t, h) && (t.IsRed() || c.Top?)
    ensures var u := if t.Node? then t.Paint(Black) else t;
      Balanced(Zip(c, u)) && Seq(Zip(c, u)) == Seq(Zip(c, t)) && Nodes(Zip(c, u)) == Nodes(Zip(c, t))
  {
    var u := if t.Node? then t.Paint(Black) else t;
    SameSeq(c, t, u);
    if t.IsRed() {
      ZipBalanced(c, u, h + 1);
    } else {
      RbHeight(t, h);
    }
  }

  /** Removing a node with at most one child leaves a balanced tree, or one that is one black node short. */
  lemma ThinBalance<N>(c: Ctx<N>, t: Tree<N>, s: Side)
    requires Balanced(Zip(c, t)) && t.Node? && t.Kid(s.Opp()).Leaf?
    ensures if t.color.Red? then Balanced(Zip(c, t.Kid(s)))
            else BlackHeight(t) > 0 && EraseInv(c, t.Kid(s), BlackHeight(t) - 1)
  {
    UnzipBalanced(c, t);
    var h := BlackHeight(t);
    if t.color.Red? {
      ZipBalanced(c, t.Kid(s), h);
    } else {
      assert Rb(t.Kid(s), h - 1) && h == 1;
    }
  }

  lemma RenameBalance<N>(c: Ctx<N>, t: Tree<N>, y: N)
    requires Balanced(Zip(c, t)) && t.Node?
    ensures Balanced(Zip(c, t.(n := y)))
  {
    UnzipBalanced(c, t);
    ZipBalanced(c, t.(n := y), BlackHeight(t));
  }
}
