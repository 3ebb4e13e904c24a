/** The node of the interval index (KERNEL/HEADER/memory/block.h), the ghost tree it stands for,
    and the balancing algorithm of KERNEL/SOURCE/memory/block.c as functions on that tree. */
module AvlTree {
  import opened Intervals


  /** `_MEMORY_BLOCK`: parent and children links, cached height, base address, size and value. */
  class MemoryBlock {
    var P: MemoryBlock?
    var L: MemoryBlock?
    var R: MemoryBlock?
    var H: nat
    var A: nat
    var S: nat
    var V: nat

    /** A block as its callers make it: `HeapAlloc` followed by `memset(block, 0, ...)`. */
    constructor (a: nat, s: nat, v: nat)
      ensures P == null && L == null && R == null && H == 0
      ensures A == a && S == s && V == v
    {
      P, L, R, H := null, null, null, 0;
      A, S, V := a, s, v;
    }
  }



  /** One node of the in-order sequence: which object, and what it holds. */
  datatype Item = Item(n: MemoryBlock, e: Entry)

  datatype Tree = Leaf | Fork(l: Tree, n: MemoryBlock, h: nat, e: Entry, r: Tree)

  /** A tree with one subtree missing: the path from the hole up to the root. */
  datatype Ctx =
    | Root
    | LeftOf(n: MemoryBlock, h: nat, e: Entry, r: Tree, up: Ctx)
    | RightOf(l: Tree, n: MemoryBlock, h: nat, e: Entry, up: Ctx)

  // ---------------------------------------------------------------- basic functions

  ghost function Top(t: Tree): MemoryBlock? {
    if t.Leaf? then null else t.n
  }

  ghost function Height(t: Tree): nat {
    if t.Leaf? then 0 else t.h
  }

  ghost function Max(a: nat, b: nat): nat {
    if a > b then a else b
  }

  ghost function Nodes(t: Tree): set<MemoryBlock> {
    if t.Leaf? then {} else Nodes(t.l) + {t.n} + Nodes(t.r)
  }

  /** No node object occurs twice: the links form a tree. */
  ghost predicate Distinct(t: Tree) {
    t.Fork? ==>
      && Distinct(t.l) && Distinct(t.r)
      && t.n !in Nodes(t.l) && t.n !in Nodes(t.r) && Nodes(t.l) !! Nodes(t.r)
  }

  ghost function Inorder(t: Tree): seq<Item> {
    if t.Leaf? then [] else Inorder(t.l) + [Item(t.n, t.e)] + Inorder(t.r)
  }

  ghost predicate Near(a: nat, b: nat) {
    a <= b + 1 && b <= a + 1
  }

  /** Every cached height is the true one and sibling heights differ by at most one. */
  ghost predicate Balanced(t: Tree) {
    t.Fork? ==>
      && Balanced(t.l) && Balanced(t.r)
      && t.h == Max(Height(t.l), Height(t.r)) + 1
      && Near(Height(t.l), Height(t.r))
  }

  // ---------------------------------------------------------------- contexts

  ghost function CtxNode(c: Ctx): MemoryBlock? {
    if c.Root? then null else c.n
  }

  ghost function CtxNodes(c: Ctx): set<MemoryBlock> {
    match c
    case Root => {}
    case LeftOf(n, _, _, r, up) => {n} + Nodes(r) + CtxNodes(up)
    case RightOf(l, n, _, _, up) => {n} + Nodes(l) + CtxNodes(up)
  }

  ghost predicate CtxDistinct(c: Ctx) {
    match c
    case Root => true
    case LeftOf(n, _, _, r, up) =>
      Distinct(r) && CtxDistinct(up) && n !in Nodes(r) && n !in CtxNodes(up) && Nodes(r) !! CtxNodes(up)
    case RightOf(l, n, _, _, up) =>
      Distinct(l) && CtxDistinct(up) && n !in Nodes(l) && n !in CtxNodes(up) && Nodes(l) !! CtxNodes(up)
  }

  ghost function Before(c: Ctx): seq<Item> {
    match c
    case Root => []
    case LeftOf(_, _, _, _, up) => Before(up)
    case RightOf(l, n, _, e, up) => Before(up) + Inorder(l) + [Item(n, e)]
  }

  ghost function After(c: Ctx): seq<Item> {
    match c
    case Root => []
    case LeftOf(n, _, e, r, up) => [Item(n, e)] + Inorder(r) + After(up)
    case RightOf(_, _, _, _, up) => After(up)
  }

  /** The tree obtained by putting t into the hole, every other node as it is. */
  ghost function Plug(c: Ctx, t: Tree): Tree {
    match c
    case Root => t
    case LeftOf(n, h, e, r, up) => Plug(up, Fork(t, n, h, e, r))
    case RightOf(l, n, h, e, up) => Plug(up, Fork(l, n, h, e, t))
  }

  /** The siblings along the path are balanced trees whose heights fit a hole of height h.
      Nothing is said of the heights cached in the path nodes themselves. */
  ghost predicate Fits(c: Ctx, h: nat) {
    match c
    case Root => true
    case LeftOf(_, _, _, r, up) => Balanced(r) && Near(h, Height(r)) && Fits(up, Max(h, Height(r)) + 1)
    case RightOf(l, _, _, _, up) => Balanced(l) && Near(h, Height(l)) && Fits(up, Max(h, Height(l)) + 1)
  }

  // ---------------------------------------------------------------- balancing

  ghost function Make(l: Tree, n: MemoryBlock, e: Entry, r: Tree): Tree {
    Fork(l, n, Max(Height(l), Height(r)) + 1, e, r)
  }

  /** The links of a rotation, the heights left as they are. */
  ghost function SwingLeft(t: Tree): Tree
    requires t.Fork? && t.r.Fork?
  {
    t.r.(l := t.(r := t.r.l))
  }

  ghost function SwingRight(t: Tree): Tree
    requires t.Fork? && t.l.Fork?
  {
    t.l.(r := t.(l := t.l.r))
  }

  /** `AdjustAVL` with type 0. */
  ghost function RotateLeft(t: Tree): Tree
    requires t.Fork? && t.r.Fork?
  {
    Make(Make(t.l, t.n, t.e, t.r.l), t.r.n, t.r.e, t.r.r)
  }

  /** `AdjustAVL` with type 1. */
  ghost function RotateRight(t: Tree): Tree
    requires t.Fork? && t.l.Fork?
  {
    Make(t.l.l, t.l.n, t.l.e, Make(t.l.r, t.n, t.e, t.r))
  }

  /** The inner rotation of a double rotation: the lifted grandchild exists because its height is positive. */
  ghost function Lean(t: Tree): Tree
    requires t.Fork?
  {
    if Height(t.l) > Height(t.r) + 1 && Height(t.l.r) > Height(t.l.l) then
      t.(l := RotateLeft(t.l))
    else if Height(t.r) > Height(t.l) + 1 && Height(t.r.l) > Height(t.r.r) then
      t.(r := RotateRight(t.r))
    else t
  }

  /** One round of the `AdjustMemoryMap` loop at node t. */
  ghost function Rebalance(t: Tree): Tree
    requires t.Fork?
  {
    if Height(t.l) > Height(t.r) + 1 then RotateRight(Lean(t))
    else if Height(t.r) > Height(t.l) + 1 then RotateLeft(Lean(t))
    else Make(t.l, t.n, t.e, t.r)
  }

  /** Put t into the hole of c and rebalance every node on the way to the root. */
  ghost function Close(c: Ctx, t: Tree): Tree {
    match c
    case Root => t
    case LeftOf(n, h, e, r, up) => Close(up, Rebalance(Fork(t, n, h, e, r)))
    case RightOf(l, n, h, e, up) => Close(up, Rebalance(Fork(l, n, h, e, t)))
  }

  // ---------------------------------------------------------------- what balancing keeps

  lemma Regroup<T>(a: seq<T>, b: seq<T>, c: seq<T>)
    ensures a + (b + c) == a + b + c
  {
  }

  lemma {:induction false} RotateLeftKeepsOrder(t: Tree)
    requires t.Fork? && t.r.Fork?
    ensures Inorder(RotateLeft(t)) == Inorder(t)
  {
    var a, x, b, y, c := Inorder(t.l), [Item(t.n, t.e)], Inorder(t.r.l), [Item(t.r.n, t.r.e)], Inorder(t.r.r);
    assert Inorder(t) == a + x + (b + y + c);
    assert Inorder(RotateLeft(t)) == a + x + b + y + c;
    Regroup(a + x, b + y, c);
    Regroup(a + x, b, y);
  }

  lemma {:induction false} RotateLeftKeepsNodes(t: Tree)
    requires t.Fork? && t.r.Fork?
    ensures Nodes(RotateLeft(t)) == Nodes(SwingLeft(t)) == Nodes(t)
    ensures Distinct(t) ==> Distinct(RotateLeft(t)) && Distinct(SwingLeft(t))
  {
    var a, b, c := Nodes(t.l), Nodes(t.r.l), Nodes(t.r.r);
    assert Nodes(t) == a + {t.n} + (b + {t.r.n} + c);
    assert Nodes(t.(r := t.r.l)) == Nodes(Make(t.l, t.n, t.e, t.r.l)) == a + {t.n} + b;
    assert Nodes(RotateLeft(t)) == (a + {t.n} + b) + {t.r.n} + c;
    if Distinct(t) {
      assert Distinct(t.r);
      assert Distinct(t.(r := t.r.l)) && Distinct(Make(t.l, t.n, t.e, t.r.l));
    }
  }

  lemma {:induction false} RotateRightKeepsOrder(t: Tree)
    requires t.Fork? && t.l.Fork?
    ensures Inorder(RotateRight(t)) == Inorder(t)
  {
    var a, x, b, y, c := Inorder(t.l.l), [Item(t.l.n, t.l.e)], Inorder(t.l.r), [Item(t.n, t.e)], Inorder(t.r);
    assert Inorder(t) == a + x + b + y + c;
    assert Inorder(RotateRight(t)) == a + x + (b + y + c);
    Regroup(a + x, b + y, c);
    Regroup(a + x, b, y);
  }

  lemma {:induction false} RotateRightKeepsNodes(t: Tree)
    requires t.Fork? && t.l.Fork?
    ensures Nodes(RotateRight(t)) == Nodes(SwingRight(t)) == Nodes(t)
    ensures Distinct(t) ==> Distinct(RotateRight(t)) && Distinct(SwingRight(t))
  {
    var a, b, c := Nodes(t.l.l), Nodes(t.l.r), Nodes(t.r);
    assert Nodes(t) == (a + {t.l.n} + b) + {t.n} + c;
    assert Nodes(t.(l := t.l.r)) == Nodes(Make(t.l.r, t.n, t.e, t.r)) == b + {t.n} + c;
    assert Nodes(RotateRight(t)) == a + {t.l.n} + (b + {t.n} + c);
    if Distinct(t) {
      assert Distinct(t.l);
      assert Distinct(t.(l := t.l.r)) && Distinct(Make(t.l.r, t.n, t.e, t.r));
    }
  }

  lemma {:induction false} RebalanceKeeps(t: Tree)
    requires t.Fork?
    ensures Inorder(Rebalance(t)) == Inorder(t)
    ensures Nodes(Rebalance(t)) == Nodes(t)
    ensures Distinct(t) ==> Distinct(Rebalance(t))
  {
    if Height(t.l) > Height(t.r) + 1 {
      if Height(t.l.r) > Height(t.l.l) { RotateLeftKeepsOrder(t.l); RotateLeftKeepsNodes(t.l); }
      RotateRightKeepsOrder(Lean(t));
      RotateRightKeepsNodes(Lean(t));
    } else if Height(t.r) > Height(t.l) + 1 {
      if Height(t.r.l) > Height(t.r.r) { RotateRightKeepsOrder(t.r); RotateRightKeepsNodes(t.r); }
      RotateLeftKeepsOrder(Lean(t));
      RotateLeftKeepsNodes(Lean(t));
    }
  }

  /** A node whose balanced children differ in height by two becomes a balanced tree,
      at most one higher than its higher child. */
  lemma RebalanceBalances(t: Tree)
    requires t.Fork? && Balanced(t.l) && Balanced(t.r)
    requires Height(t.l) <= Height(t.r) + 2 && Height(t.r) <= Height(t.l) + 2
    ensures Balanced(Rebalance(t))
    ensures var m := Max(Height(t.l), Height(t.r));
            m <= Height(Rebalance(t)) <= m + 1 && (Near(Height(t.l), Height(t.r)) ==> Height(Rebalance(t)) == m + 1)
  {
    if Height(t.l) > Height(t.r) + 1 {
      RotateRightBalances(t);
    } else if Height(t.r) > Height(t.l) + 1 {
      RotateLeftBalances(t);
    }
  }

  lemma RotateRightBalances(t: Tree)
    requires t.Fork? && Balanced(t.l) && Balanced(t.r) && Height(t.l) == Height(t.r) + 2
    ensures Balanced(RotateRight(Lean(t)))
    ensures Height(t.l) <= Height(RotateRight(Lean(t))) <= Height(t.l) + 1
  {
    var l := t.l;
    assert Balanced(l.l) && Balanced(l.r);
    if Height(l.r) > Height(l.l) {
      assert Balanced(l.r.l) && Balanced(l.r.r);
      assert Lean(t).l == Make(Make(l.l, l.n, l.e, l.r.l), l.r.n, l.r.e, l.r.r);
      assert Balanced(Make(l.l, l.n, l.e, l.r.l));
      assert Balanced(Make(l.r.r, t.n, t.e, t.r));
    } else {
      assert Balanced(Make(l.r, t.n, t.e, t.r));
    }
  }

  lemma RotateLeftBalances(t: Tree)
    requires t.Fork? && Balanced(t.l) && Balanced(t.r) && Height(t.r) == Height(t.l) + 2
    ensures Balanced(RotateLeft(Lean(t)))
    ensures Height(t.r) <= Height(RotateLeft(Lean(t))) <= Height(t.r) + 1
  {
    var r := t.r;
    assert Balanced(r.l) && Balanced(r.r);
    if Height(r.l) > Height(r.r) {
      assert Balanced(r.l.l) && Balanced(r.l.r);
      assert Lean(t).r == Make(r.l.l, r.l.n, r.l.e, Make(r.l.r, r.n, r.e, r.r));
      assert Balanced(Make(r.l.r, r.n, r.e, r.r));
      assert Balanced(Make(t.l, t.n, t.e, r.l.l));
    } else {
      assert Balanced(Make(t.l, t.n, t.e, r.l));
    }
  }

  /** Closing a context around a balanced tree that differs by at most one from the height the
      context was built for gives a balanced tree: the heights cached on the path do not matter. */
  lemma {:induction false} CloseBalances(c: Ctx, t: Tree, h: nat)
    requires Balanced(t) && Fits(c, h) && Near(Height(t), h)
    ensures Balanced(Close(c, t))
    decreases c
  {
    match c
    case Root =>
    case LeftOf(n, g, e, r, up) =>
      RebalanceBalances(Fork(t, n, g, e, r));
      CloseBalances(up, Rebalance(Fork(t, n, g, e, r)), Max(h, Height(r)) + 1);
    case RightOf(l, n, g, e, up) =>
      RebalanceBalances(Fork(l, n, g, e, t));
      CloseBalances(up, Rebalance(Fork(l, n, g, e, t)), Max(h, Height(l)) + 1);
  }

  lemma {:induction false} CloseKeepsOrder(c: Ctx, t: Tree)
    ensures Inorder(Close(c, t)) == Before(c) + Inorder(t) + After(c)
    decreases c
  {
    match c
    case Root =>
    case LeftOf(n, h, e, r, up) =>
      var u := Fork(t, n, h, e, r);
      RebalanceKeeps(u);
      CloseKeepsOrder(up, Rebalance(u));
      Regroup(Before(up), Inorder(t), [Item(n, e)] + Inorder(r));
      Regroup(Inorder(t), [Item(n, e)], Inorder(r));
      Regroup(Before(up) + Inorder(t), [Item(n, e)] + Inorder(r), After(up));
    case RightOf(l, n, h, e, up) =>
      var u := Fork(l, n, h, e, t);
      RebalanceKeeps(u);
      CloseKeepsOrder(up, Rebalance(u));
      Regroup(Before(up), Inorder(l) + [Item(n, e)], Inorder(t));
      Regroup(Before(up), Inorder(l), [Item(n, e)]);
  }

  lemma {:induction false} CloseKeepsNodes(c: Ctx, t: Tree)
    ensures Nodes(Close(c, t)) == CtxNodes(c) + Nodes(t)
    ensures CtxDistinct(c) && Distinct(t) && CtxNodes(c) !! Nodes(t) ==> Distinct(Close(c, t))
    decreases c
  {
    match c
    case Root =>
    case LeftOf(n, h, e, r, up) =>
      RebalanceKeeps(Fork(t, n, h, e, r));
      CloseKeepsNodes(up, Rebalance(Fork(t, n, h, e, r)));
    case RightOf(l, n, h, e, up) =>
      RebalanceKeeps(Fork(l, n, h, e, t));
      CloseKeepsNodes(up, Rebalance(Fork(l, n, h, e, t)));
  }

  // ---------------------------------------------------------------- finding a node

  lemma {:induction false} PlugOrder(c: Ctx, t: Tree)
    ensures Inorder(Plug(c, t)) == Before(c) + Inorder(t) + After(c)
    decreases c
  {
    match c
    case Root =>
    case LeftOf(n, h, e, r, up) =>
      PlugOrder(up, Fork(t, n, h, e, r));
      Regroup(Before(up), Inorder(t), [Item(n, e)] + Inorder(r));
      Regroup(Inorder(t), [Item(n, e)], Inorder(r));
      Regroup(Before(up) + Inorder(t), [Item(n, e)] + Inorder(r), After(up));
    case RightOf(l, n, h, e, up) =>
      PlugOrder(up, Fork(l, n, h, e, t));
      Regroup(Before(up), Inorder(l) + [Item(n, e)], Inorder(t));
      Regroup(Before(up), Inorder(l), [Item(n, e)]);
  }

  lemma {:induction false} PlugNodes(c: Ctx, t: Tree)
    ensures Nodes(Plug(c, t)) == CtxNodes(c) + Nodes(t)
    ensures Distinct(Plug(c, t)) <==> CtxDistinct(c) && Distinct(t) && CtxNodes(c) !! Nodes(t)
    decreases c
  {
    match c
    case Root =>
    case LeftOf(n, h, e, r, up) => PlugNodes(up, Fork(t, n, h, e, r));
    case RightOf(l, n, h, e, up) => PlugNodes(up, Fork(l, n, h, e, t));
  }

  lemma {:induction false} PlugFits(c: Ctx, t: Tree)
    requires Balanced(Plug(c, t))
    ensures Balanced(t) && Fits(c, Height(t))
    decreases c
  {
    match c
    case Root =>
    case LeftOf(n, h, e, r, up) => PlugFits(up, Fork(t, n, h, e, r));
    case RightOf(l, n, h, e, up) => PlugFits(up, Fork(l, n, h, e, t));
  }

  /** The node at position k of the in-order sequence, and the path to it. */
  lemma {:induction false} Locate(c0: Ctx, t0: Tree, k: nat) returns (c: Ctx, t: Tree)
    requires k < |Inorder(t0)|
    ensures Plug(c, t) == Plug(c0, t0) && t.Fork? && |Before(c)| + |Inorder(t.l)| == |Before(c0)| + k
    decreases t0
  {
    var i := |Inorder(t0.l)|;
    if k < i {
      c, t := Locate(LeftOf(t0.n, t0.h, t0.e, t0.r, c0), t0.l, k);
    } else if k > i {
      c, t := Locate(RightOf(t0.l, t0.n, t0.h, t0.e, c0), t0.r, k - i - 1);
    } else {
      c, t := c0, t0;
    }
  }

  /** Another balanced tree of the same height may take the place of t. */
  lemma {:induction false} PlugBalanced(c: Ctx, t: Tree, u: Tree)
    requires Balanced(Plug(c, t)) && Balanced(u) && Height(u) == Height(t)
    ensures Balanced(Plug(c, u)) && Height(Plug(c, u)) == Height(Plug(c, t))
    decreases c
  {
    match c
    case Root =>
    case LeftOf(n, h, e, r, up) =>
      PlugFits(up, Fork(t, n, h, e, r));
      PlugBalanced(up, Fork(t, n, h, e, r), Fork(u, n, h, e, r));
    case RightOf(l, n, h, e, up) =>
      PlugFits(up, Fork(l, n, h, e, t));
      PlugBalanced(up, Fork(l, n, h, e, t), Fork(l, n, h, e, u));
  }

  // ---------------------------------------------------------------- paths within paths

  /** The path s, whose top is the hole of base. */
  ghost function Graft(s: Ctx, base: Ctx): Ctx {
    match s
    case Root => base
    case LeftOf(n, h, e, r, up) => LeftOf(n, h, e, r, Graft(up, base))
    case RightOf(l, n, h, e, up) => RightOf(l, n, h, e, Graft(up, base))
  }

  lemma {:induction false} GraftParts(s: Ctx, base: Ctx)
    ensures Before(Graft(s, base)) == Before(base) + Before(s)
    ensures After(Graft(s, base)) == After(s) + After(base)
    decreases s
  {
    match s
    case Root =>
    case LeftOf(n, h, e, r, up) =>
      GraftParts(up, base);
      Regroup([Item(n, e)] + Inorder(r), After(up), After(base));
    case RightOf(l, n, h, e, up) =>
      GraftParts(up, base);
      Regroup(Before(base), Before(up), Inorder(l));
      Regroup(Before(base), Before(up) + Inorder(l), [Item(n, e)]);
  }

  lemma {:induction false} GraftPlug(s: Ctx, base: Ctx, t: Tree)
    ensures Plug(Graft(s, base), t) == Plug(base, Plug(s, t))
    decreases s
  {
    match s
    case Root =>
    case LeftOf(n, h, e, r, up) => GraftPlug(up, base, Fork(t, n, h, e, r));
    case RightOf(l, n, h, e, up) => GraftPlug(up, base, Fork(l, n, h, e, t));
  }

  lemma {:induction false} GraftFits(s: Ctx, base: Ctx, t: Tree)
    requires Balanced(Plug(s, t)) && Fits(base, Height(Plug(s, t)))
    ensures Balanced(t) && Fits(Graft(s, base), Height(t))
    decreases s
  {
    match s
    case Root =>
    case LeftOf(n, h, e, r, up) =>
      PlugFits(up, Fork(t, n, h, e, r));
      GraftFits(up, base, Fork(t, n, h, e, r));
    case RightOf(l, n, h, e, up) =>
      PlugFits(up, Fork(l, n, h, e, t));
      GraftFits(up, base, Fork(l, n, h, e, t));
  }

  // ---------------------------------------------------------------- depth

  ghost function Fib(n: nat): nat {
    if n < 2 then n else Fib(n - 1) + Fib(n - 2)
  }

  lemma {:induction false} FibGrows(n: nat)
    ensures Fib(n) <= Fib(n + 1)
    decreases n
  {
    if n > 1 { FibGrows(n - 1); FibGrows(n - 2); }
  }

  lemma {:induction false} FibOfHigher(a: nat, b: nat)
    requires Near(a, b)
    ensures Fib(Max(a, b) + 3) <= Fib(a + 2) + Fib(b + 2)
  {
    var m := Max(a, b);
    FibGrows(m + 1);
    assert Fib(m + 3) == Fib(m + 2) + Fib(m + 1);
  }

  /** A balanced tree of height h holds at least Fib(h + 2) - 1 nodes. */
  lemma {:induction false} ManyNodes(t: Tree)
    requires Balanced(t)
    ensures |Inorder(t)| + 1 >= Fib(Height(t) + 2)
    decreases t
  {
    if t.Fork? {
      ManyNodes(t.l);
      ManyNodes(t.r);
      FibOfHigher(Height(t.l), Height(t.r));
    }
  }

  /** How many nodes lie on the path from the hole to the root. */
  ghost function Depth(c: Ctx): nat {
    if c.Root? then 0 else 1 + Depth(c.up)
  }

  lemma {:induction false} DepthBelowHeight(c: Ctx, t: Tree)
    requires Balanced(Plug(c, t))
    ensures Depth(c) + Height(t) <= Height(Plug(c, t))
    decreases c
  {
    match c
    case Root =>
    case LeftOf(n, h, e, r, up) =>
      DepthBelowHeight(up, Fork(t, n, h, e, r));
      PlugFits(up, Fork(t, n, h, e, r));
    case RightOf(l, n, h, e, up) =>
      DepthBelowHeight(up, Fork(l, n, h, e, t));
      PlugFits(up, Fork(l, n, h, e, t));
  }

  lemma {:induction false} GraftDepth(s: Ctx, base: Ctx)
    ensures Depth(Graft(s, base)) == Depth(s) + Depth(base)
    decreases s
  {
    if !s.Root? { GraftDepth(s.up, base); }
  }

  ghost function Pow2(n: nat): (p: nat)
    ensures p > 0 && (n > 0 ==> p % 2 == 0)
  {
    if n == 0 then 1 else 2 * Pow2(n - 1)
  }

  lemma {:induction false} FibDoubles(h: nat)
    ensures Fib(h + 2) >= Pow2(h / 2)
    decreases h
  {
    if h >= 2 {
      FibDoubles(h - 2);
      FibGrows(h);
      assert Fib(h + 2) == Fib(h + 1) + Fib(h);
    }
  }

  /** The height is at most logarithmic in the number of nodes. */
  lemma {:induction false} LogarithmicHeight(t: Tree)
    requires Balanced(t)
    ensures Pow2(Height(t) / 2) <= |Inorder(t)| + 1
  {
    ManyNodes(t);
    FibDoubles(Height(t));
  }
}
