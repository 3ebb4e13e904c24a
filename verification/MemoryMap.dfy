/** KERNEL/SOURCE/memory/block.c: the methods that search and rewire the linked nodes in place. */
module MemoryMaps {
  import opened Intervals
  import opened AvlTree
  import opened Links

  ghost function CellOf(n: MemoryBlock): Cell
    reads n
  {
    Cell(n.P, n.L, n.R, n.H, Entry(n.A, n.S, n.V))
  }

  ghost function EntriesOf(items: seq<Item>): (es: seq<Entry>)
    ensures |es| == |items| && forall i :: 0 <= i < |es| ==> es[i] == items[i].e
  {
    seq(|items|, i requires 0 <= i < |items| => items[i].e)
  }

  lemma SortedMiddle(b: seq<Item>, l: seq<Item>, x: Item, r: seq<Item>, a: seq<Item>)
    requires Sorted(EntriesOf(b + (l + [x] + r) + a))
    ensures forall i :: 0 <= i < |l| ==> l[i].e.A <= x.e.A
    ensures forall i :: 0 <= i < |r| ==> x.e.A <= r[i].e.A
  {
    var s := b + (l + [x] + r) + a;
    var es := EntriesOf(s);
    var k := |b| + |l|;
    assert s[k] == x;
    forall i | 0 <= i < |l| ensures l[i].e.A <= x.e.A {
      assert s[|b| + i] == l[i];
      assert es[|b| + i].A <= es[k].A;
    }
    forall i | 0 <= i < |r| ensures x.e.A <= r[i].e.A {
      assert s[k + 1 + i] == r[i];
      assert es[k].A <= es[k + 1 + i].A;
    }
  }

  lemma Middle(b: seq<Item>, l: seq<Item>, x: Item, r: seq<Item>, a: seq<Item>)
    ensures var s, k := b + (l + [x] + r) + a, |b| + |l|;
            s[k] == x && s[..k] == b + l && s[k + 1..] == r + a
  {
  }

  /** What a removal at position k does to the sequence: the entry at k goes, the nodes after it stay,
      and so do those before it but the last, whose node may be another one. */
  ghost predicate Removed(old': seq<Item>, new': seq<Item>, k: nat) {
    && k < |old'|
    && EntriesOf(new') == RemoveAt(EntriesOf(old'), k)
    && new'[k..] == old'[k + 1..]
    && (k > 0 ==> new'[..k - 1] == old'[..k - 1])
  }

  lemma RemovedOuter(was: seq<Item>, now: seq<Item>, k: nat, b: seq<Item>, l: seq<Item>, x: Item, r: seq<Item>,
      a: seq<Item>)
    requires was == b + (l + [x] + r) + a && now == b + (l + r) + a && k == |b| + |l|
    ensures Removed(was, now, k)
  {
  }

  lemma RemovedInner(was: seq<Item>, now: seq<Item>, k: nat, b: seq<Item>, l: seq<Item>, y: Item, x: Item, r: seq<Item>,
      a: seq<Item>)
    requires was == b + (l + [y] + [x] + r) + a && now == b + l + [Item(x.n, y.e)] + r + a && k == |b| + |l| + 1
    ensures Removed(was, now, k)
  {
  }

  lemma InsertedAt(was: seq<Item>, now: seq<Item>, k: nat, b: seq<Item>, x: Item, a: seq<Item>)
    requires was == b + a && now == b + [x] + a && k == |b|
    ensures k <= |was| && now == Replace(was, k, k, [x])
  {
  }

  lemma SingleFits(t: Tree)
    requires t.Fork? && t.l.Leaf? && t.r.Leaf?
    ensures Balanced(Rebalance(t)) && Near(Height(Rebalance(t)), 0) && Inorder(Rebalance(t)) == [Item(t.n, t.e)]
  {
  }

  lemma AfterLow(was: seq<Item>, now: seq<Item>, k: nat, b: Entry)
    requires Splits(EntriesOf(was), b.A, k) && NoWrap(EntriesOf(was))
    requires if TouchesLow(EntriesOf(was), b, k) then Removed(was, now, k - 1) else now == was
    ensures var j := Low(EntriesOf(was), b, k);
            && j <= |now| && (j == |now| <==> k == |was|)
            && (k < |was| ==> now[j] == was[k] && JoinLow(EntriesOf(was), b, k).A <= was[k].e.A)
            && EntriesOf(now) == EntriesOf(was)[..j] + EntriesOf(was)[k..] && NoWrap(EntriesOf(now))
            && (Bound(b) < QWORDS ==> Bound(JoinLow(EntriesOf(was), b, k)) < QWORDS)
  {
  }

  lemma AfterHigh(es: seq<Entry>, was: seq<Item>, now: seq<Item>, k: nat, b: Entry)
    requires Splits(es, b.A, k)
    requires EntriesOf(was) == es[..Low(es, b, k)] + es[k..]
    requires if TouchesHigh(es, b, k) then Removed(was, now, Low(es, b, k)) else now == was
    ensures EntriesOf(now) == Absorbed(es, b, k)
  {
  }

  lemma Updated(was: seq<Item>, now: seq<Item>, k: nat, b: seq<Item>, l: seq<Item>, x: Item, y: Item, r: seq<Item>,
      a: seq<Item>)
    requires was == b + (l + [x] + r) + a && now == b + (l + [y] + r) + a && k == |b| + |l|
    ensures k < |was| && now == was[k := y]
  {
  }

  lemma {:induction false} OnlyChildFits(t: Tree)
    requires t.Fork? && Balanced(t) && (t.l.Leaf? || t.r.Leaf?)
    ensures Balanced(OnlyChild(t)) && Near(Height(OnlyChild(t)), Height(t))
    ensures Inorder(OnlyChild(t)) == Inorder(t.l) + Inorder(t.r)
  {
  }

  /** The path to the predecessor of a node that has taken over the predecessor's data. */
  lemma {:induction false} PathFits(c: Ctx, t: Tree, s: Ctx, u: Tree, base: Ctx)
    requires t.Fork? && Balanced(t) && Fits(c, Height(t))
    requires Plug(s, u) == t.l && After(s) == [] && u.Fork? && u.r.Leaf? && base == LeftOf(t.n, u.h, u.e, t.r, c)
    ensures Fits(Graft(s, base), Height(u)) && Balanced(u.l) && Near(Height(u.l), Height(u))
  {
    GraftFits(s, base, u);
  }

  lemma {:induction false} PathDepth(c: Ctx, t: Tree, s: Ctx, u: Tree, base: Ctx)
    requires t.Fork? && Balanced(t) && Plug(s, u) == t.l && base.LeftOf? && base.up == c
    ensures Depth(Graft(s, base)) <= Depth(c) + Height(t)
  {
    assert Balanced(t.l) && Height(t.l) < Height(t);
    assert Depth(base) == Depth(c) + 1;
    hide Balanced, Plug, Graft, Depth;
    GraftDepth(s, base);
    DepthBelowHeight(s, u);
  }

  lemma {:induction false} PathOrder(c: Ctx, t: Tree, s: Ctx, u: Tree, base: Ctx)
    requires t.Fork? && After(s) == [] && u.Fork? && u.r.Leaf? && base == LeftOf(t.n, u.h, u.e, t.r, c)
    ensures Before(Graft(s, base)) + Inorder(u.l) + After(Graft(s, base)) ==
            Before(c) + (Before(s) + Inorder(u.l)) + [Item(t.n, u.e)] + Inorder(t.r) + After(c)
  {
    GraftParts(s, base);
    Shuffle(Before(c), Before(s), Inorder(u.l), [Item(t.n, u.e)], Inorder(t.r), After(c));
  }

  lemma Shuffle<T>(b: seq<T>, s: seq<T>, l: seq<T>, y: seq<T>, r: seq<T>, a: seq<T>)
    ensures (b + s) + l + ([] + (y + r + a)) == b + (s + l) + y + r + a
  {
  }

  /** The in-order sequence around a node, and around a node and its predecessor. */
  lemma {:induction false} OrderAround(c: Ctx, t: Tree)
    requires t.Fork?
    ensures Inorder(Plug(c, t)) == Before(c) + (Inorder(t.l) + [Item(t.n, t.e)] + Inorder(t.r)) + After(c)
  {
    PlugOrder(c, t);
  }

  lemma {:induction false} OrderOfPath(s: Ctx, u: Tree)
    requires After(s) == [] && u.Fork? && u.r.Leaf?
    ensures Inorder(Plug(s, u)) == Before(s) + Inorder(u.l) + [Item(u.n, u.e)]
  {
    PlugOrder(s, u);
    Regroup(Before(s), Inorder(u.l), [Item(u.n, u.e)]);
  }

  class MemoryMap {
    var root: MemoryBlock?
    ghost var tree: Tree
    ghost var Repr: set<MemoryBlock>

    ghost function Snap(): (m: Memory)
      reads this`Repr, Repr
      ensures m.Keys == Repr
    {
      map n | n in Repr :: CellOf(n)
    }

    lemma SnapIs(m: Memory)
      requires m.Keys == Repr && forall n :: n in Repr ==> CellOf(n) == m[n]
      ensures Snap() == m
    {
    }

    /** The links spell out `tree`, whose nodes are all there is. */
    ghost predicate Wired()
      reads this, Repr
    {
      Repr == Nodes(tree) && Distinct(tree) && root == Top(tree) && Linked(tree, null, Snap())
    }

    ghost predicate Valid()
      reads this, Repr
    {
      Wired() && Balanced(tree)
    }

    /** The tree is being worked on at the node of t, which hangs in the hole of c. */
    ghost predicate At(c: Ctx, t: Tree)
      reads this`root, this`Repr, Repr
    {
      CtxNodes(c) + Nodes(t) == Repr && Apart(c, t) && Linked(t, CtxNode(c), Snap())
        && CtxLinked(c, root, Top(t), Snap())
    }

    /** The nodes in order of position, and what they hold. */
    ghost function Items(): seq<Item>
      reads this`tree
    {
      Inorder(tree)
    }

    ghost function Entries(): seq<Entry>
      reads this`tree
    {
      EntriesOf(Items())
    }

    constructor ()
      ensures Valid() && tree == Leaf && Repr == {}
    {
      root, tree, Repr := null, Leaf, {};
    }

    function Load(s: Slot): MemoryBlock?
      reads this, if s.RootSlot? then {} else {s.n}
    {
      match s
      case RootSlot => root
      case LeftSlot(n) => n.L
      case RightSlot(n) => n.R
    }

    /** `*reference = v`. */
    method Store(s: Slot, v: MemoryBlock?)
      requires !s.RootSlot? ==> s.n in Repr
      modifies this`root, Repr
      ensures root == StoreRoot(s, v, old(root)) && Snap() == StoreMem(s, v, old(Snap()))
      ensures forall n :: n in Repr && CellOf(n) != old(CellOf(n)) ==> !s.RootSlot? && s.n == n
    {
      match s
      case RootSlot => root := v;
      case LeftSlot(n) => n.L := v;
      case RightSlot(n) => n.R := v;
    }

    method NodeReference(block: MemoryBlock, ghost c: Ctx) returns (s: Slot)
      requires block in Repr && (block.P != null ==> block.P in Repr)
      requires CtxLinked(c, root, block, Snap()) && block.P == CtxNode(c) && CtxDistinct(c) && block !in CtxNodes(c)
      ensures s == SlotOf(c)
    {
      if block.P != null {
        if block.P.L == block {
          s := LeftSlot(block.P);
        } else {
          s := RightSlot(block.P);
        }
      } else {
        s := RootSlot;
      }
    }

    static method TreeHeight(tree: MemoryBlock?) returns (h: nat)
      ensures h == if tree != null then tree.H else 0
    {
      if tree != null {
        return tree.H;
      }
      return 0;
    }

    method AdjustHeight(block: MemoryBlock)
      requires block in Repr && (block.L != null ==> block.L in Repr) && (block.R != null ==> block.R in Repr)
      modifies block`H
      ensures Snap() == FixHeight(block, old(Snap()))
    {
      var LH := TreeHeight(block.L);
      var RH := TreeHeight(block.R);
      block.H := (if LH > RH then LH else RH) + 1;
    }

    /** Rotates the tree t that hangs in the hole of c. */
    method AdjustAVL(reference: Slot, kind: nat, ghost c: Ctx, ghost t: Tree)
      requires kind < 2 && t.Fork? && reference == SlotOf(c) && At(c, t)
      requires kind == 0 ==> t.r.Fork?
      requires kind == 1 ==> t.l.Fork?
      modifies this`root, Repr
      ensures At(c, if kind == 0 then RotateLeft(t) else RotateRight(t))
    {
      var block := Load(reference);
      match kind
      case 0 => RotateLeftAt(reference, block, c, t);
      case 1 => RotateRightAt(reference, block, c, t);
    }

    method RotateLeftAt(reference: Slot, block: MemoryBlock, ghost c: Ctx, ghost t: Tree)
      requires t.Fork? && t.r.Fork? && reference == SlotOf(c) && At(c, t) && block == t.n
      modifies this`root, Repr
      ensures At(c, RotateLeft(t))
    {
      ghost var m, r0 := Snap(), root;
      RightPieces(c, t);
      LiftRightChild(reference, block, block.P, block.R);
      RotatesLeft(c, t, r0, m);
      RotateLeftKeepsNodes(t);
    }

    method RotateRightAt(reference: Slot, block: MemoryBlock, ghost c: Ctx, ghost t: Tree)
      requires t.Fork? && t.l.Fork? && reference == SlotOf(c) && At(c, t) && block == t.n
      modifies this`root, Repr
      ensures At(c, RotateRight(t))
    {
      ghost var m, r0 := Snap(), root;
      LeftPieces(c, t);
      LiftLeftChild(reference, block, block.P, block.L);
      RotatesRight(c, t, r0, m);
      RotateRightKeepsNodes(t);
    }

    lemma RightPieces(c: Ctx, t: Tree)
      requires At(c, t) && t.Fork? && t.r.Fork?
      ensures var b, R := t.n, t.r.n;
        && {b, R} <= Repr && b.R == R && b.P == CtxNode(c) && R != b
        && R.L == Top(t.r.l) && R.R == Top(t.r.r) && b.L == Top(t.l)
        && (R.L != null ==> R.L in Repr && R.L != R && R.L != b)
        && (R.R != null ==> R.R in Repr && R.R != R && R.R != b && R.R != R.L)
        && (b.L != null ==> b.L in Repr && b.L != R && b.L != b && b.L != R.L)
        && (!c.Root? ==> c.n in Repr && c.n != b && c.n != R && c.n != R.L)
    {
      assert Linked(t.r, t.n, Snap());
      assert t.r.n in Nodes(t) && Nodes(t.l) <= Nodes(t) && Nodes(t.r.l) <= Nodes(t.r) && Nodes(t.r.r) <= Nodes(t.r);
      assert Distinct(t.r);
    }

    lemma LeftPieces(c: Ctx, t: Tree)
      requires At(c, t) && t.Fork? && t.l.Fork?
      ensures var b, L := t.n, t.l.n;
        && {b, L} <= Repr && b.L == L && b.P == CtxNode(c) && L != b
        && L.L == Top(t.l.l) && L.R == Top(t.l.r) && b.R == Top(t.r)
        && (L.L != null ==> L.L in Repr && L.L != L && L.L != b)
        && (L.R != null ==> L.R in Repr && L.R != L && L.R != b && L.R != L.L)
        && (b.R != null ==> b.R in Repr && b.R != L && b.R != b && b.R != L.R)
        && (!c.Root? ==> c.n in Repr && c.n != b && c.n != L && c.n != L.R)
    {
      assert Linked(t.l, t.n, Snap());
      assert t.l.n in Nodes(t) && Nodes(t.r) <= Nodes(t) && Nodes(t.l.l) <= Nodes(t.l) && Nodes(t.l.r) <= Nodes(t.l);
      assert Distinct(t.l);
    }

    method LiftRightChild(reference: Slot, block: MemoryBlock, P: MemoryBlock?, R: MemoryBlock)
      requires block in Repr && R in Repr && block.R == R && block.P == P && R != block
      requires R.L != null ==> R.L in Repr && R.L != R && R.L != block
      requires R.R != null ==> R.R in Repr && R.R != R && R.R != block && R.R != R.L
      requires block.L != null ==> block.L in Repr && block.L != R && block.L != block && block.L != R.L
      requires !reference.RootSlot? ==>
        reference.n in Repr && reference.n != block && reference.n != R && reference.n != R.L
      modifies this`root, Repr
      ensures root == StoreRoot(reference, R, old(root))
      ensures Snap() == FixHeight(R, FixHeight(block, StoreMem(reference, R, LiftRight(block, old(Snap())))))
    {
      RelinkRight(block, P, R);
      Store(reference, R);
      AdjustHeight(block);
      AdjustHeight(R);
    }

    method RelinkRight(block: MemoryBlock, P: MemoryBlock?, R: MemoryBlock)
      requires block in Repr && R in Repr && block.R == R && block.P == P && R != block
      requires R.L != null ==> R.L in Repr && R.L != R && R.L != block
      modifies Repr
      ensures Snap() == LiftRight(block, old(Snap()))
    {
      if R.L != null {
        R.L.P := block;
      }
      block.R := R.L;
      block.P := R;
      R.L := block;
      R.P := P;
    }

    method LiftLeftChild(reference: Slot, block: MemoryBlock, P: MemoryBlock?, L: MemoryBlock)
      requires block in Repr && L in Repr && block.L == L && block.P == P && L != block
      requires L.L != null ==> L.L in Repr && L.L != L && L.L != block
      requires L.R != null ==> L.R in Repr && L.R != L && L.R != block && L.R != L.L
      requires block.R != null ==> block.R in Repr && block.R != L && block.R != block && block.R != L.R
      requires !reference.RootSlot? ==>
        reference.n in Repr && reference.n != block && reference.n != L && reference.n != L.R
      modifies this`root, Repr
      ensures root == StoreRoot(reference, L, old(root))
      ensures Snap() == FixHeight(L, FixHeight(block, StoreMem(reference, L, LiftLeft(block, old(Snap())))))
    {
      RelinkLeft(block, P, L);
      Store(reference, L);
      AdjustHeight(block);
      AdjustHeight(L);
    }

    method RelinkLeft(block: MemoryBlock, P: MemoryBlock?, L: MemoryBlock)
      requires block in Repr && L in Repr && block.L == L && block.P == P && L != block
      requires L.R != null ==> L.R in Repr && L.R != L && L.R != block
      modifies Repr
      ensures Snap() == LiftLeft(block, old(Snap()))
    {
      if L.R != null {
        L.R.P := block;
      }
      block.L := L.R;
      block.P := L;
      L.R := block;
      L.P := P;
    }

    lemma ZoomLeft(c: Ctx, t: Tree)
      requires t.Fork?
      ensures At(c, t) <==> At(LeftOf(t.n, t.h, t.e, t.r, c), t.l)
    {
    }

    lemma ZoomRight(c: Ctx, t: Tree)
      requires t.Fork?
      ensures At(c, t) <==> At(RightOf(t.l, t.n, t.h, t.e, c), t.r)
    {
    }

    /** The facts about block, its children and its parent that the climb relies on. */
    lemma {:induction false} Surroundings(c: Ctx, t: Tree)
      requires At(c, t) && t.Fork?
      ensures Linked(t.l, t.n, Snap()) && Linked(t.r, t.n, Snap())
      ensures t.n in Repr && CellOf(t.n) == Cell(CtxNode(c), Top(t.l), Top(t.r), t.h, t.e)
      ensures CtxLinked(c, root, t.n, Snap()) && t.n !in CtxNodes(c) && CtxDistinct(c) && (!c.Root? ==> c.n in Repr)
      ensures t.l.Fork? ==> t.l.n in Repr && CellOf(t.l.n) == Cell(t.n, Top(t.l.l), Top(t.l.r), t.l.h, t.l.e)
      ensures t.r.Fork? ==> t.r.n in Repr && CellOf(t.r.n) == Cell(t.n, Top(t.r.l), Top(t.r.r), t.r.h, t.r.e)
    {
      LinkedNodes(t, CtxNode(c), Snap());
      assert Linked(t.l, t.n, Snap()) && Linked(t.r, t.n, Snap());
    }

    /** One round of the loop of `AdjustMemoryMap`; the next node is the parent. */
    method Round(block: MemoryBlock, ghost c: Ctx, ghost t: Tree) returns (next: MemoryBlock?)
      requires At(c, t) && t.Fork? && block == t.n
      modifies this`root, Repr
      ensures At(c, Rebalance(t)) && next == CtxNode(c)
    {
      hide At, Linked, CtxLinked, CtxDistinct, CtxNodes, Nodes, Distinct, Balanced;
      Surroundings(c, t);
      var reference := NodeReference(block, c);
      var L, R := block.L, block.R;
      var LH := TreeHeight(L);
      var RH := TreeHeight(R);
      ghost var u := t;
      if LH > RH + 1 {
        RoundLeft(block, L, c, t);
        u := RotateRight(Lean(t));
      } else if RH > LH + 1 {
        RoundRight(block, R, c, t);
        u := RotateLeft(Lean(t));
      }
      next := Settle(reference, c, u);
    }

    /** The end of a round: the height of whatever node the reference now leads to. */
    method Settle(reference: Slot, ghost c: Ctx, ghost u: Tree) returns (next: MemoryBlock?)
      requires At(c, u) && u.Fork? && reference == SlotOf(c)
      modifies this`root, Repr
      ensures At(c, Make(u.l, u.n, u.e, u.r)) && next == CtxNode(c)
    {
      Surroundings(c, u);
      ghost var m := Snap();
      var top := Load(reference);
      AdjustHeight(top);
      next := Load(reference).P;
      FixHeightLinks(u, CtxNode(c), m);
      CtxLinkedFrame(c, root, top, m, Snap());
    }

    method RoundLeft(block: MemoryBlock, L: MemoryBlock, ghost c: Ctx, ghost t: Tree)
      requires At(c, t) && t.Fork? && block == t.n && L == block.L && Height(t.l) > Height(t.r) + 1
      modifies this`root, Repr
      ensures At(c, RotateRight(Lean(t)))
    {
      hide At, Linked, CtxLinked, CtxDistinct, CtxNodes, Nodes, Distinct, Balanced;
      Surroundings(c, t);
      ZoomLeft(c, t);
      Surroundings(LeftOf(t.n, t.h, t.e, t.r, c), t.l);
      var LRH := TreeHeight(L.R);
      var LLH := TreeHeight(L.L);
      if LRH > LLH {
        AdjustAVL(LeftSlot(block), 0, LeftOf(t.n, t.h, t.e, t.r, c), t.l);
        ZoomLeft(c, Lean(t));
      }
      Surroundings(c, Lean(t));
      var reference := NodeReference(block, c);
      AdjustAVL(reference, 1, c, Lean(t));
    }

    method RoundRight(block: MemoryBlock, R: MemoryBlock, ghost c: Ctx, ghost t: Tree)
      requires At(c, t) && t.Fork? && block == t.n && R == block.R && Height(t.r) > Height(t.l) + 1
      modifies this`root, Repr
      ensures At(c, RotateLeft(Lean(t)))
    {
      hide At, Linked, CtxLinked, CtxDistinct, CtxNodes, Nodes, Distinct, Balanced;
      Surroundings(c, t);
      ZoomRight(c, t);
      Surroundings(RightOf(t.l, t.n, t.h, t.e, c), t.r);
      var RLH := TreeHeight(R.L);
      var RRH := TreeHeight(R.R);
      if RLH > RRH {
        AdjustAVL(RightSlot(block), 1, RightOf(t.l, t.n, t.h, t.e, c), t.r);
        ZoomRight(c, Lean(t));
      }
      Surroundings(c, Lean(t));
      var reference := NodeReference(block, c);
      AdjustAVL(reference, 0, c, Lean(t));
    }

    /** `AdjustMemoryMap`: rebalances at start and at every node above it. */
    method AdjustMemoryMap(start: MemoryBlock?, ghost c0: Ctx, ghost t0: Tree) returns (ghost rounds: nat)
      requires At(c0, t0) && (if start == null then c0.Root? else start == Top(t0))
      modifies this`root, Repr
      ensures At(Root, if start == null then t0 else Close(c0, Rebalance(t0)))
      ensures rounds == if start == null then 0 else Depth(c0) + 1
    {
      rounds := 0;
      var block := start;
      ghost var result := if start == null then t0 else Close(c0, Rebalance(t0));
      ghost var c, t := c0, t0;
      while block != null
        invariant block == null ==> At(Root, result) && rounds == if start == null then 0 else Depth(c0) + 1
        invariant block != null ==>
          rounds + Depth(c) == Depth(c0) && At(c, t) && block == Top(t) && Close(c, Rebalance(t)) == result
        decreases block != null, c
      {
        block := Round(block, c, t);
        rounds := rounds + 1;
        ghost var u := Rebalance(t);
        match c
        case Root =>
        case LeftOf(n, h, e, r, up) =>
          c, t := up, Fork(u, n, h, e, r);
          ZoomLeft(c, t);
        case RightOf(l, n, h, e, up) =>
          c, t := up, Fork(l, n, h, e, u);
          ZoomRight(c, t);
      }
    }

    // ---------------------------------------------------------------- searching

    /** `SearchMemoryNode`: option 0 finds the last block that starts at or below the address, option 1
        the first that starts at or above it. k counts the blocks below the answer, steps the rounds. */
    method SearchMemoryNode(address: nat, option: nat) returns (next: MemoryBlock?, ghost k: nat, ghost steps: nat)
      requires Valid() && Sorted(Entries())
      ensures steps <= Height(tree)
      ensures option == 0 ==> Splits(Entries(), address + 1, k) && next == if k == 0 then null else Items()[k - 1].n
      ensures option == 1 ==> Splits(Entries(), address, k) && next == if k == |Items()| then null else Items()[k].n
      ensures option > 1 ==> next == null
    {
      next, k, steps := null, 0, 0;
      if option == 0 {
        next, k, steps := Floor(address);
      } else if option == 1 {
        next, k, steps := Ceiling(address);
      }
    }

    /** A search has come down to t, along the path c. */
    ghost predicate Down(c: Ctx, t: Tree, curr: MemoryBlock?)
      reads this, Repr
    {
      && curr == Top(t) && Linked(t, CtxNode(c), Snap()) && Balanced(t)
      && Items() == Before(c) + Inorder(t) + After(c)
    }

    /** Every position the search has left behind lies on its side of a. */
    ghost predicate Between(c: Ctx, a: int) {
      && (forall i :: 0 <= i < |Before(c)| ==> Before(c)[i].e.A < a)
      && (forall i :: 0 <= i < |After(c)| ==> a <= After(c)[i].e.A)
    }

    lemma StepDown(c: Ctx, t: Tree, curr: MemoryBlock, a: int)
      requires Sorted(Entries()) && Down(c, t, curr) && Between(c, a)
      ensures t.Fork? && CellOf(t.n).e == t.e
      ensures Depth(LeftOf(t.n, t.h, t.e, t.r, c)) == Depth(RightOf(t.l, t.n, t.h, t.e, c)) == Depth(c) + 1
      ensures var c' := LeftOf(t.n, t.h, t.e, t.r, c);
              Down(c', t.l, curr.L) && Height(t.l) < Height(t) && (a <= t.e.A ==> Between(c', a))
      ensures var c' := RightOf(t.l, t.n, t.h, t.e, c);
              Down(c', t.r, curr.R) && Height(t.r) < Height(t) && (t.e.A < a ==> Between(c', a))
    {
      var b, l, x, r, f := Before(c), Inorder(t.l), Item(t.n, t.e), Inorder(t.r), After(c);
      SortedMiddle(b, l, x, r, f);
      Regroup(b, l, [x] + r);
      Regroup(l, [x], r);
      Regroup(b + l, [x] + r, f);
      Regroup(b, l + [x], r);
      Regroup(b, l, [x]);
    }

    lemma NoDepth()
      ensures Depth(Root) == 0
    {
    }

    lemma {:induction false} Landed(c: Ctx, a: int)
      requires Down(c, Leaf, null) && Between(c, a)
      ensures Splits(Entries(), a, |Before(c)|) && Items() == Before(c) + After(c)
    {
    }

    method Floor(address: nat) returns (next: MemoryBlock?, ghost k: nat, ghost steps: nat)
      requires Valid() && Sorted(Entries())
      ensures steps <= Height(tree) && Splits(Entries(), address + 1, k)
      ensures next == if k == 0 then null else Items()[k - 1].n
    {
      hide Depth;
      NoDepth();
      next, steps := null, 0;
      var curr := root;
      ghost var c, t := Root, tree;
      while curr != null
        invariant Down(c, t, curr) && steps + Height(t) <= Height(tree) && steps == Depth(c)
        invariant Between(c, address + 1)
        invariant IsLast(next, Before(c))
        decreases Height(t)
      {
        hide Down, Between, IsLast, Before;
        StepDown(c, t, curr, address + 1);
        LastBefore(c, t, next);
        steps := steps + 1;
        if curr.A <= address {
          next := curr;
          curr := curr.R;
          c, t := RightOf(t.l, t.n, t.h, t.e, c), t.r;
        } else {
          curr := curr.L;
          c, t := LeftOf(t.n, t.h, t.e, t.r, c), t.l;
        }
      }
      k := |Before(c)|;
      Landed(c, address + 1);
      hide Before, After;
    }

    ghost predicate IsLast(next: MemoryBlock?, s: seq<Item>) {
      next == if s == [] then null else s[|s| - 1].n
    }

    /** A step to the right passes a node, a step to the left none. */
    lemma LastBefore(c: Ctx, t: Tree, next: MemoryBlock?)
      requires t.Fork?
      ensures IsLast(t.n, Before(RightOf(t.l, t.n, t.h, t.e, c)))
      ensures IsLast(next, Before(LeftOf(t.n, t.h, t.e, t.r, c))) <==> IsLast(next, Before(c))
    {
    }

    method Ceiling(address: nat) returns (next: MemoryBlock?, ghost k: nat, ghost steps: nat)
      requires Valid() && Sorted(Entries())
      ensures steps <= Height(tree) && Splits(Entries(), address, k)
      ensures next == if k == |Items()| then null else Items()[k].n
    {
      hide Depth;
      NoDepth();
      next, steps := null, 0;
      var curr := root;
      ghost var c, t := Root, tree;
      while curr != null
        invariant Down(c, t, curr) && steps + Height(t) <= Height(tree) && steps == Depth(c)
        invariant Between(c, address)
        invariant next == if After(c) == [] then null else After(c)[0].n
        decreases Height(t)
      {
        hide Down, Between;
        StepDown(c, t, curr, address);
        steps := steps + 1;
        if curr.A >= address {
          next := curr;
          curr := curr.L;
          c, t := LeftOf(t.n, t.h, t.e, t.r, c), t.l;
        } else {
          curr := curr.R;
          c, t := RightOf(t.l, t.n, t.h, t.e, c), t.r;
        }
      }
      k := |Before(c)|;
      Landed(c, address);
    }

    // ---------------------------------------------------------------- removing

    lemma {:induction false} AtPlug(c: Ctx, t: Tree)
      ensures At(c, t) <==> At(Root, Plug(c, t))
    {
      SplitLinked(c, t, root, Snap());
      PlugNodes(c, t);
    }

    /** Takes a node with at most one child out of the links. */
    method Unlink(block: MemoryBlock, child: MemoryBlock?, ghost c: Ctx, ghost t: Tree)
      requires At(c, t) && t.Fork? && (t.l.Leaf? || t.r.Leaf?) && block == t.n && child == Top(OnlyChild(t))
      modifies this`root, this`Repr, Repr
      ensures At(c, OnlyChild(t)) && Repr == old(Repr) - {block} && block.P == CtxNode(c)
    {
      ghost var m, r0 := Snap(), root;
      assert Apart(c, t) && Linked(t, CtxNode(c), m) && CtxLinked(c, r0, t.n, m);
      hide Linked, CtxLinked, Apart, Nodes, CtxNodes, CtxDistinct, Distinct, Unhook;
      Surroundings(c, t);
      var reference := NodeReference(block, c);
      Detach(reference, block, child);
      Unhooks(c, t, r0, m);
    }

    method Detach(reference: Slot, block: MemoryBlock, child: MemoryBlock?)
      requires block in Repr && (child != null ==> child in Repr && child != block)
      requires !reference.RootSlot? ==> reference.n in Repr && reference.n != block
      modifies this`root, this`Repr, Repr
      ensures root == StoreRoot(reference, child, old(root)) && Repr == old(Repr) - {block}
      ensures Snap() == Unhook(reference, child, old(block.P), old(Snap())) - {block} && block.P == old(block.P)
    {
      Store(reference, child);
      ghost var m := Snap();
      if child != null {
        child.P := block.P;
      }
      SnapIs(Reparent(child, block.P, m));
      m := Snap();
      Repr := Repr - {block};
      SnapIs(m - {block});
    }

    /** Rebalances above a hole that was just filled, and takes note of the tree this gives. */
    method Climb(P: MemoryBlock?, ghost c: Ctx, ghost t: Tree, ghost h: nat) returns (ghost rounds: nat)
      requires At(c, t) && P == CtxNode(c)
      requires Balanced(t) && Fits(c, h) && Near(Height(t), h)
      modifies this`root, this`tree, Repr
      ensures Valid() && Items() == Before(c) + Inorder(t) + After(c) && rounds == Depth(c)
    {
      ghost var c1, t1 := c, t;
      match c {
        case Root =>
        case LeftOf(n, h, e, r, up) =>
          c1, t1 := up, Fork(t, n, h, e, r);
          ZoomLeft(c1, t1);
        case RightOf(l, n, h, e, up) =>
          c1, t1 := up, Fork(l, n, h, e, t);
          ZoomRight(c1, t1);
      }
      hide At, Before, After, Inorder;
      rounds := AdjustMemoryMap(P, c1, t1);
      tree := Close(c, t);
      Settled(c, t, h);
    }

    lemma {:induction false} Settled(c: Ctx, t: Tree, h: nat)
      requires At(Root, tree) && tree == Close(c, t)
      requires Balanced(t) && Fits(c, h) && Near(Height(t), h)
      ensures Valid() && Items() == Before(c) + Inorder(t) + After(c)
    {
      CloseBalances(c, t, h);
      CloseKeepsOrder(c, t);
    }

    /** `RemoveMemoryNode` of the node at position k. A node with two children takes over the data of
        its predecessor, and the predecessor's node is the one that goes. */
    method RemoveMemoryNode(block: MemoryBlock, ghost k: nat) returns (ghost rounds: nat)
      requires Valid() && k < |Items()| && Items()[k].n == block
      modifies this, Repr
      ensures Valid() && Repr < old(Repr)
      ensures Removed(old(Items()), Items(), k) && rounds <= old(Height(tree))
    {
      ghost var c, t := Found(k);
      DepthBelowHeight(c, t);
      hide Valid, At, Linked, CtxLinked, Fits, Balanced, Inorder, Before, After, Removed, EntriesOf, Nodes, CtxNodes,
        CtxDistinct;
      Surroundings(c, t);
      if block.L != null && block.R != null {
        ghost var s, u;
        s, u, rounds := RemoveInner(block, c, t);
        OrderOfPath(s, u);
        RemovedInner(old(Items()), Items(), k, Before(c), Before(s) + Inorder(u.l), Item(u.n, u.e), Item(t.n, t.e),
          Inorder(t.r), After(c));
      } else {
        rounds := RemoveOuter(block, c, t);
        RemovedOuter(old(Items()), Items(), k, Before(c), Inorder(t.l), Item(t.n, t.e), Inorder(t.r), After(c));
      }
    }

    /** The node at position k, with the tree open at it. */
    lemma Found(k: nat) returns (c: Ctx, t: Tree)
      requires Valid() && k < |Items()|
      ensures At(c, t) && Plug(c, t) == tree && t.Fork? && Balanced(tree) && Balanced(t) && Fits(c, Height(t))
      ensures k == |Before(c)| + |Inorder(t.l)| && Items()[k] == Item(t.n, t.e)
      ensures Items() == Before(c) + (Inorder(t.l) + [Item(t.n, t.e)] + Inorder(t.r)) + After(c)
    {
      c, t := Locate(Root, tree, k);
      assert At(Root, tree);
      hide At, Fits, Balanced, Inorder, Nodes, Before, After;
      AtPlug(c, t);
      OrderAround(c, t);
      Middle(Before(c), Inorder(t.l), Item(t.n, t.e), Inorder(t.r), After(c));
      PlugFits(c, t);
    }

    method RemoveOuter(block: MemoryBlock, ghost c: Ctx, ghost t: Tree) returns (ghost rounds: nat)
      requires At(c, t) && t.Fork? && block == t.n && (t.l.Leaf? || t.r.Leaf?)
      requires Balanced(t) && Fits(c, Height(t))
      modifies this, Repr
      ensures Valid() && Repr == old(Repr) - {block} && rounds == Depth(c)
      ensures Items() == Before(c) + (Inorder(t.l) + Inorder(t.r)) + After(c)
    {
      OnlyChildFits(t);
      assert Top(t.l) == null || t.l.Fork?;
      hide At, Fits, Linked, CtxLinked, Balanced, Inorder, Before, After, CtxDistinct, CtxNodes, Nodes;
      Surroundings(c, t);
      var child := if block.L != null then block.L else block.R;
      Unlink(block, child, c, t);
      rounds := Climb(block.P, c, OnlyChild(t), Height(t));
    }

    /** The greatest node of a subtree, and the path of right links down to it. */
    method Greatest(top: MemoryBlock, ghost t: Tree, ghost p: MemoryBlock?)
        returns (prev: MemoryBlock, ghost s: Ctx, ghost u: Tree)
      requires Linked(t, p, Snap()) && top == Top(t)
      ensures Plug(s, u) == t && After(s) == [] && u.Fork? && u.r.Leaf? && prev == u.n
      ensures u.n in Repr && CellOf(u.n).L == Top(u.l) && CellOf(u.n).H == u.h && CellOf(u.n).e == u.e
    {
      prev := top;
      s, u := Root, t;
      ghost var q := p;
      while prev.R != null
        invariant Plug(s, u) == t && After(s) == [] && prev == Top(u) && Linked(u, q, Snap())
        decreases u
      {
        prev := prev.R;
        q := u.n;
        s, u := RightOf(u.l, u.n, u.h, u.e, s), u.r;
      }
    }

    method RemoveInner(block: MemoryBlock, ghost c: Ctx, ghost t: Tree)
        returns (ghost s: Ctx, ghost u: Tree, ghost rounds: nat)
      requires At(c, t) && t.Fork? && block == t.n && t.l.Fork? && t.r.Fork?
      requires Balanced(t) && Fits(c, Height(t))
      modifies this, Repr
      ensures Valid() && Repr < old(Repr) && rounds <= Depth(c) + Height(t)
      ensures Plug(s, u) == t.l && After(s) == [] && u.Fork? && u.r.Leaf?
      ensures Items() == Before(c) + (Before(s) + Inorder(u.l)) + [Item(t.n, u.e)] + Inorder(t.r) + After(c)
    {
      hide At, Linked, CtxLinked, Balanced, Fits, Inorder, Nodes, CtxNodes, CtxDistinct;
      Surroundings(c, t);
      var prev;
      prev, s, u := Greatest(block.L, t.l, block);
      Overwrite(block, prev, c, t, u);
      ghost var base := LeftOf(t.n, u.h, u.e, t.r, c);
      ghost var path := Graft(s, base);
      ZoomLeft(c, t.(h := u.h, e := u.e));
      AtGraft(s, base, u);
      PathFits(c, t, s, u, base);
      PathDepth(c, t, s, u, base);
      PathOrder(c, t, s, u, base);
      hide Graft, Plug, Before, After;
      Surroundings(path, u);
      var child := prev.L;
      Unlink(prev, child, path, u);
      rounds := Climb(prev.P, path, u.l, Height(u));
    }

    /** The data of prev, cached height included, is copied into block. */
    method Overwrite(block: MemoryBlock, prev: MemoryBlock, ghost c: Ctx, ghost t: Tree, ghost u: Tree)
      requires At(c, t) && t.Fork? && block == t.n && u.Fork? && prev == u.n && u.n in Repr
      requires CellOf(u.n).H == u.h && CellOf(u.n).e == u.e
      modifies block`H, block`A, block`S, block`V
      ensures At(c, t.(h := u.h, e := u.e)) && Snap()[block] == old(Snap())[block].(H := u.h, e := u.e)
    {
      ghost var m := Snap();
      block.H := prev.H;
      block.A := prev.A;
      block.S := prev.S;
      block.V := prev.V;
      SnapIs(m[block := m[block].(H := u.h, e := u.e)]);
      Rewrites(t, CtxNode(c), u.h, u.e, m);
      CtxLinkedFrame(c, root, t.n, m, Snap());
    }

    lemma {:induction false} AtGraft(s: Ctx, base: Ctx, t: Tree)
      ensures At(Graft(s, base), t) <==> At(base, Plug(s, t))
    {
      GraftPlug(s, base, t);
      AtPlug(Graft(s, base), t);
      AtPlug(base, Plug(s, t));
    }

    // ---------------------------------------------------------------- inserting

    /** Hangs a childless node into an empty slot. */
    method Hang(reference: Slot, block: MemoryBlock, parent: MemoryBlock?, ghost c: Ctx)
      requires At(c, Leaf) && reference == SlotOf(c) && parent == CtxNode(c)
      requires block !in Repr && block.L == null && block.R == null
      modifies this`root, this`Repr, Repr, block
      ensures At(c, Fork(Leaf, block, block.H, CellOf(block).e, Leaf)) && Repr == old(Repr) + {block}
      ensures CellOf(block).e == old(CellOf(block).e) && block.H == old(block.H)
    {
      ghost var m, r0, e := Snap(), root, CellOf(block).e;
      block.P := parent;
      Repr := Repr + {block};
      SnapIs(m[block := Cell(parent, null, null, block.H, e)]);
      SlotInRepr(c, m);
      assert CtxDistinct(c) && CtxNodes(c) == old(Repr) && CtxLinked(c, r0, null, m);
      Store(reference, block);
      Hangs(c, block, block.H, e, r0, m);
      assert Apart(c, Fork(Leaf, block, block.H, e, Leaf));
    }

    lemma {:induction false} SlotInRepr(c: Ctx, m: Memory)
      requires CtxNodes(c) <= Repr
      ensures !c.Root? ==> c.n in Repr
    {
    }

    /** The empty slot where a new node belongs: behind all blocks that start below the address. */
    method FindSlot(address: nat) returns (reference: Slot, parent: MemoryBlock?, ghost c: Ctx, ghost steps: nat)
      requires Valid() && Sorted(Entries())
      ensures reference == SlotOf(c) && parent == CtxNode(c) && Plug(c, Leaf) == tree
      ensures steps == Depth(c) <= Height(tree)
      ensures Items() == Before(c) + After(c) && Splits(Entries(), address, |Before(c)|)
    {
      hide Depth;
      NoDepth();
      steps := 0;
      parent := null;
      reference := RootSlot;
      ghost var t := tree;
      c := Root;
      var cursor := Load(reference);
      while cursor != null
        invariant reference == SlotOf(c) && parent == CtxNode(c) && Plug(c, t) == tree
        invariant Down(c, t, cursor) && Between(c, address) && steps + Height(t) <= Height(tree) && steps == Depth(c)
        decreases Height(t)
      {
        hide Down, Between, Valid;
        StepDown(c, t, cursor, address);
        steps := steps + 1;
        parent := cursor;
        if address > cursor.A {
          reference := RightSlot(cursor);
          c, t := RightOf(t.l, t.n, t.h, t.e, c), t.r;
        } else {
          reference := LeftSlot(cursor);
          c, t := LeftOf(t.n, t.h, t.e, t.r, c), t.l;
        }
        cursor := Load(reference);
      }
      Landed(c, address);
    }

    /** The descent of `InsertMemoryNode`: a node goes in front of those that start at its address or above. */
    method Descend(block: MemoryBlock) returns (ghost k: nat, ghost steps: nat, ghost rounds: nat)
      requires Valid() && Sorted(Entries()) && block !in Repr && block.L == null && block.R == null
      modifies this, Repr, block
      ensures Valid() && Repr == old(Repr) + {block} && steps <= old(Height(tree)) && rounds <= old(Height(tree)) + 1
      ensures Splits(old(Entries()), old(block.A), k)
      ensures Items() == Replace(old(Items()), k, k, [Item(block, old(CellOf(block).e))])
    {
      var reference, parent;
      ghost var c;
      reference, parent, c, steps := FindSlot(block.A);
      k := |Before(c)|;
      ghost var e := CellOf(block).e;
      OpenSlot(c);
      hide At, Valid, Fits, Before, After, CtxNode, CtxNodes, Splits, EntriesOf;
      Hang(reference, block, parent, c);
      rounds := Seat(block, c, e);
      InsertedAt(old(Items()), Items(), k, Before(c), Item(block, e), After(c));
    }

    /** Rebalances above a node just hung. */
    method Seat(block: MemoryBlock, ghost c: Ctx, ghost e: Entry) returns (ghost rounds: nat)
      requires At(c, Fork(Leaf, block, block.H, e, Leaf)) && Fits(c, 0)
      modifies this`root, this`tree, Repr
      ensures Valid() && Items() == Before(c) + [Item(block, e)] + After(c) && rounds == Depth(c) + 1
    {
      ghost var single := Fork(Leaf, block, block.H, e, Leaf);
      SingleFits(single);
      hide At, Valid, Fits, Before, After, Rebalance, Inorder;
      rounds := AdjustMemoryMap(block, c, single);
      tree := Close(c, Rebalance(single));
      Settled(c, Rebalance(single), 0);
    }

    lemma {:induction false} OpenSlot(c: Ctx)
      requires Valid() && Plug(c, Leaf) == tree
      ensures At(c, Leaf) && Fits(c, 0) && Depth(c) <= Height(tree)
    {
      DepthBelowHeight(c, Leaf);
      assert At(Root, tree);
      AtPlug(c, Leaf);
      PlugFits(c, Leaf);
    }

    method AbsorbLow(block: MemoryBlock, prev: MemoryBlock?, ghost k: nat)
      requires Valid() && block !in Repr && Splits(Entries(), block.A, k)
      requires prev == if k == 0 then null else Items()[k - 1].n
      requires NoWrap(Entries()) && block.A + block.S < QWORDS
      modifies this, Repr, block`A, block`S
      ensures Valid() && Repr <= old(Repr)
      ensures var es, b := old(Entries()), old(CellOf(block).e);
              CellOf(block) == old(CellOf(block)).(e := JoinLow(es, b, k))
      ensures if TouchesLow(old(Entries()), old(CellOf(block).e), k) then Removed(old(Items()), Items(), k - 1)
              else Items() == old(Items())
    {
      ghost var es := Entries();
      if prev != null {
        Holds(k - 1);
        if Add64(prev.A, prev.S) >= block.A {
          var A := prev.A;
          var Z := Add64(block.A, block.S);
          if Add64(prev.A, prev.S) > Z {
            Z := Add64(prev.A, prev.S);
          }
          block.A := A;
          block.S := Z - A;
          ghost var rounds := RemoveMemoryNode(prev, k - 1);
        }
      }
    }

    method AbsorbHigh(block: MemoryBlock, next: MemoryBlock?, ghost j: nat)
      requires Valid() && block !in Repr && j <= |Items()|
      requires next == if j == |Items()| then null else Items()[j].n
      requires NoWrap(Entries()) && block.A + block.S < QWORDS && (j < |Items()| ==> block.A <= Entries()[j].A)
      modifies this, Repr, block`A, block`S
      ensures Valid() && Repr <= old(Repr)
      ensures var es, b := old(Entries()), old(CellOf(block).e);
              var touches := j < |es| && Bound(b) >= es[j].A;
              && CellOf(block) == old(CellOf(block)).(e := if touches then JoinHigh(b, es[j]) else b)
              && (if touches then Removed(old(Items()), Items(), j) else Items() == old(Items()))
    {
      if next != null {
        Holds(j);
        if Add64(block.A, block.S) >= next.A {
          var A := block.A;
          var Z := Add64(next.A, next.S);
          if Add64(block.A, block.S) > Z {
            Z := Add64(block.A, block.S);
          }
          block.A := A;
          block.S := Z - A;
          ghost var rounds := RemoveMemoryNode(next, j);
        }
      }
    }

    /** The merging half of `InsertMemoryNode`. The node found above the new block is still there, with
        the same data, after the one below it has been removed. */
    method Absorb(block: MemoryBlock, ghost k: nat)
      requires Valid() && block !in Repr && Splits(Entries(), block.A, k) && Absent(Entries(), block.A)
      requires Strict(Entries()) && NoWrap(Entries()) && block.A + block.S < QWORDS
      modifies this, Repr, block`A, block`S
      ensures Valid() && Repr <= old(Repr)
      ensures var es, b := old(Entries()), old(CellOf(block).e);
              && CellOf(block) == old(CellOf(block)).(e := JoinBoth(es, b, k))
              && Entries() == Absorbed(es, b, k)
              && (Low(es, b, k) == High(es, b, k) ==> Items() == old(Items()))
    {
      var next, prev := Neighbours(block.A, k);
      ghost var was, e := Items(), CellOf(block).e;
      hide Valid, Removed, Absent, Strict, NoWrap, Splits, Absorbed;
      AbsorbLow(block, prev, k);
      AfterLow(was, Items(), k, e);
      ghost var mid := Items();
      AbsorbHigh(block, next, Low(EntriesOf(was), e, k));
      AfterHigh(EntriesOf(was), mid, Items(), k, e);
    }

    method Neighbours(address: nat, ghost k: nat) returns (next: MemoryBlock?, prev: MemoryBlock?)
      requires Valid() && Strict(Entries()) && Splits(Entries(), address, k) && Absent(Entries(), address)
      ensures next == if k == |Items()| then null else Items()[k].n
      ensures prev == if k == 0 then null else Items()[k - 1].n
    {
      ghost var kn, kp, s1, s2;
      next, kn, s1 := SearchMemoryNode(address, 1);
      prev, kp, s2 := SearchMemoryNode(address, 0);
      NoneBetween(Entries(), address, kp, kn);
      SplitsOnce(Entries(), address, kn, k);
    }

    /** `InsertMemoryNode`. With merge set, the blocks that touch or overlap the new one are removed
        first and the new one grows over them. */
    method InsertMemoryNode(block: MemoryBlock, merge: nat)
      requires Valid() && block !in Repr && block.L == null && block.R == null
      requires Strict(Entries()) && NoWrap(Entries()) && block.A + block.S < QWORDS
      requires merge != 0 ==> Absent(Entries(), block.A)
      modifies this, Repr, block
      ensures Valid() && block in Repr && Repr <= old(Repr) + {block}
      ensures var es, b := old(Entries()), old(CellOf(block).e);
              var k := Rank(es, b.A);
              && Splits(es, b.A, k)
              && (if merge == 0 then Items() == Replace(old(Items()), k, k, [Item(block, b)])
                  else Entries() == MergeAt(es, b, k))
              && (Low(es, b, k) == High(es, b, k) ==> Items() == Replace(old(Items()), k, k, [Item(block, b)]))
    {
      ghost var was, es, e := Items(), Entries(), CellOf(block).e;
      StrictSorted(es);
      ghost var k := Rank(es, e.A);
      hide Valid, NoWrap, Absent, Absorbed, MergeAt, Low, High, JoinBoth, Rank, EntriesOf;
      AbsorbedSplits(es, e, k);
      if merge != 0 {
        Absorb(block, k);
      }
      StrictSorted(Entries());
      ghost var now := Items();
      ghost var j, steps, rounds := Descend(block);
      SplitsOnce(EntriesOf(now), if merge != 0 then JoinBoth(es, e, k).A else e.A, j, if merge != 0 then Low(es, e, k)
        else k);
      HungEntries(now, Items(), j, block, if merge != 0 then JoinBoth(es, e, k) else e);
    }

    lemma HungEntries(was: seq<Item>, now: seq<Item>, k: nat, n: MemoryBlock, e: Entry)
      requires k <= |was| && now == Replace(was, k, k, [Item(n, e)])
      ensures EntriesOf(now) == Replace(EntriesOf(was), k, k, [e])
    {
    }

    lemma Holds(k: nat)
      requires Valid() && k < |Items()|
      ensures Items()[k].n in Repr && CellOf(Items()[k].n).e == Items()[k].e == Entries()[k]
    {
      var c, t := Found(k);
      Surroundings(c, t);
    }

    /** `node->A = a; node->S = s`, as the clients of the index write to a node they have found. */
    method SetBlock(n: MemoryBlock, a: nat, s: nat, ghost k: nat)
      requires Valid() && k < |Items()| && Items()[k].n == n
      modifies this`tree, n`A, n`S
      ensures Valid() && n.A == a && n.S == s
      ensures Items() == old(Items())[k := Item(n, Entry(a, s, old(Items())[k].e.V))]
    {
      ghost var c, t := Found(k);
      ghost var was, e := Items(), Entry(a, s, t.e.V);
      hide Valid, Balanced, Fits, Inorder, Before, After;
      Assign(n, a, s, c, t);
      tree := Plug(c, t.(e := e));
      Rewritten(c, t, e);
      Updated(was, Items(), k, Before(c), Inorder(t.l), Item(t.n, t.e), Item(t.n, e), Inorder(t.r), After(c));
    }

    method Assign(n: MemoryBlock, a: nat, s: nat, ghost c: Ctx, ghost t: Tree)
      requires At(c, t) && t.Fork? && n == t.n
      modifies n`A, n`S
      ensures At(c, t.(e := Entry(a, s, t.e.V))) && n.A == a && n.S == s
    {
      ghost var m := Snap();
      ghost var e := Entry(a, s, t.e.V);
      Surroundings(c, t);
      n.A := a;
      n.S := s;
      SnapIs(m[n := m[n].(e := e)]);
      Rewrites(t, CtxNode(c), t.h, e, m);
      CtxLinkedFrame(c, root, n, m, Snap());
    }

    lemma {:induction false} Rewritten(c: Ctx, t: Tree, e: Entry)
      requires t.Fork? && At(c, t.(e := e)) && tree == Plug(c, t.(e := e)) && Balanced(Plug(c, t))
      ensures Valid()
      ensures Items() == Before(c) + (Inorder(t.l) + [Item(t.n, e)] + Inorder(t.r)) + After(c)
    {
      AtPlug(c, t.(e := e));
      PlugFits(c, t);
      PlugBalanced(c, t, t.(e := e));
      OrderAround(c, t.(e := e));
    }
  }
}
