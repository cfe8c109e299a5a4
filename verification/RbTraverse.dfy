/** The explicit-stack traversal of src/NativeCodeBlock.c and why its 64 slots are enough. */
module RbTraverse {
  import opened RbShape
  import opened RbMemory
  import opened RbTree
  import opened Powers

  lemma SquareGrows(a: nat, b: nat)
    requires a <= b
    ensures a * a <= b * b
  {
    assert a * a <= a * b <= b * b;
  }

  ghost function Height<N>(t: Tree<N>): nat {
    if t.Leaf? then 0 else 1 + if Height(t.left) > Height(t.right) then Height(t.left) else Height(t.right)
  }

  lemma {:induction false} RbSize<N>(t: Tree<N>, h: nat)
    requires Rb(t, h)
    ensures Pow2(h) <= |Seq(t)| + 1
    ensures Height(t) <= 2 * h + if t.IsRed() then 1 else 0
  {
    if t.Node? {
      var k := if t.color.Black? then h - 1 else h;
      RbSize(t.left, k);
      RbSize(t.right, k);
    }
  }

  /** The height is at most twice the logarithm of the size plus one. */
  lemma HeightBound<N>(t: Tree<N>)
    requires Balanced(t)
    ensures Pow2(Height(t)) <= (|Seq(t)| + 1) * (|Seq(t)| + 1)
  {
    var h, n := BlackHeight(t), |Seq(t)| + 1;
    RbSize(t, h);
    Pow2Adds(h, h);
    Pow2Grows(Height(t), 2 * h);
    SquareGrows(Pow2(h), n);
  }

  const STACK_SLOTS := 64

  lemma SlotsSuffice<N>(t: Tree<N>)
    requires Balanced(t) && |Seq(t)| < 0x1_0000_0000
    ensures Height(t) <= STACK_SLOTS
  {
    HeightBound(t);
    var n := |Seq(t)| + 1;
    SquareGrows(n, 0x1_0000_0000);
    Pow2Of64();
    if Height(t) > 64 {
      Pow2Grows(65, Height(t));
    }
  }

  lemma Pow2Of64()
    ensures Pow2(64) == 0x1_0000_0000 * 0x1_0000_0000
  {
    assert Pow2(8) == 256;
    Pow2Adds(8, 8);
    Pow2Adds(16, 16);
    Pow2Adds(32, 32);
  }

  /** The order of the traversal: a node, then its right subtree, then its left subtree. */
  ghost function Visits<N>(t: Tree<N>): seq<N> {
    if t.Leaf? then [] else [t.n] + Visits(t.right) + Visits(t.left)
  }

  lemma {:induction false} VisitsEachOnce<N>(t: Tree<N>)
    ensures multiset(Visits(t)) == multiset(Seq(t))
  {
    if t.Node? {
      VisitsEachOnce(t.left);
      VisitsEachOnce(t.right);
    }
  }

  /** What is still to be visited when the subtrees `ts` are on the stack. */
  ghost function Pending<N>(ts: seq<Tree<N>>): seq<N> {
    if ts == [] then [] else Visits(ts[|ts| - 1]) + Pending(ts[..|ts| - 1])
  }

  ghost function Rest<N>(t: Tree<N>, ts: seq<Tree<N>>): seq<N> {
    Visits(t) + Pending(ts)
  }

  lemma PushRest<N>(t: Tree<N>, ts: seq<Tree<N>>)
    requires t.Node?
    ensures Rest(t, ts) == [t.n] + Rest(t.right, ts + [t.left])
  {
    assert (ts + [t.left])[..|ts|] == ts;
  }

  lemma PopRest<N>(ts: seq<Tree<N>>)
    requires ts != []
    ensures Rest(Leaf, ts) == Rest(ts[|ts| - 1], ts[..|ts| - 1])
  {
  }

  /** The stack holds the pointers of the subtrees `ts`, which are no deeper than `h` allows. */
  ghost predicate Stacked<T>(m: Memory<T>, stack: seq<RbNode?<T>>, ts: seq<Tree<RbNode<T>>>, ps: seq<RbNode<T>>,
      h: nat)
  {
    && |ts| == |ps| <= |stack|
    && forall i :: 0 <= i < |ts| ==> stack[i] == Ptr(ts[i]) && TreeRep(m, ts[i], ps[i]) && i + 1 + Height(ts[i]) <= h
  }

  lemma PushStacked<T>(m: Memory<T>, stack: seq<RbNode?<T>>, t: Tree<RbNode<T>>, p: RbNode?<T>,
      ts: seq<Tree<RbNode<T>>>, ps: seq<RbNode<T>>, h: nat)
    requires Stacked(m, stack, ts, ps, h) && TreeRep(m, t, p) && t.Node? && |ts| + Height(t) <= h <= |stack|
    ensures Stacked(m, stack[|ts| := Ptr(t.left)], ts + [t.left], ps + [t.n], h)
  {
  }

  /** The loop of `TraverRefBlockPrepDel` and `TraverRefBlockRebase`. Each node is read once, when it
      is appended to `visited`, so `TraverRefBlockPrepDel` may free it right after. */
  method TraverseFrom<T>(node0: RbNode?<T>, ghost tree: Tree<RbNode<T>>) returns (visited: seq<RbNode<T>>)
    requires node0 == Ptr(tree) && TreeRep(Mem(Nodes(tree)), tree, null) && Height(tree) <= STACK_SLOTS
    ensures visited == Visits(tree)
  {
    var stack: seq<RbNode?<T>> := seq(STACK_SLOTS, _ => null);
    var sp := 0;
    var node := node0;
    visited := [];
    ghost var h, m := Height(tree), Mem(Nodes(tree));
    ghost var t, ts, ps: seq<RbNode<T>>, p: RbNode?<T> := tree, [], [], null;
    while node != null || sp > 0
      invariant m == Mem(Nodes(tree)) && node == Ptr(t) && TreeRep(m, t, p)
      invariant sp == |ts| && sp + Height(t) <= h <= |stack| && Stacked(m, stack, ts, ps, h)
      invariant visited + Rest(t, ts) == Visits(tree)
      decreases |Rest(t, ts)|, sp
    {
      if node != null {
        PushRest(t, ts);
        PushStacked(m, stack, t, p, ts, ps, h);
        var x: RbNode<T> := node;
        assert x in m;
        ghost var rest := Rest(t.right, ts + [t.left]);
        assert visited + ([x] + rest) == visited + [x] + rest;
        visited := visited + [x];
        stack := stack[sp := x.left];
        sp := sp + 1;
        node := x.right;
        ts, ps, p, t := ts + [t.left], ps + [t.n], t.n, t.right;
      } else {
        PopRest(ts);
        sp := sp - 1;
        node := stack[sp];
        t, p, ts, ps := ts[sp], ps[sp], ts[..sp], ps[..sp];
      }
    }
  }

  method Traverse<T>(root: RbRoot<T>) returns (visited: seq<RbNode<T>>)
    requires root.Valid() && |root.Items()| < 0x1_0000_0000
    ensures visited == Visits(root.tree)
  {
    root.Open();
    SlotsSuffice(root.tree);
    assert CtxNodes<RbNode<T>>(Top) + Nodes(root.tree) == Nodes(root.tree);
    visited := TraverseFrom(root.node, root.tree);
  }
}
