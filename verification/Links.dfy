/** Linked nodes as snapshots: a map from each node object to the contents of its fields.
    The lemmas say what the pointer assignments of block.c do to the tree that the links spell out. */
module Links {
  import opened Intervals
  import opened AvlTree

  datatype Cell = Cell(P: MemoryBlock?, L: MemoryBlock?, R: MemoryBlock?, H: nat, e: Entry)

  type Memory = map<MemoryBlock, Cell>

  /** The nodes of t are linked up exactly as t says, below parent p. */
  ghost predicate Linked(t: Tree, p: MemoryBlock?, m: Memory) {
    t.Leaf? ||
    (t.n in m && m[t.n] == Cell(p, Top(t.l), Top(t.r), t.h, t.e) &&
     Linked(t.l, t.n, m) && Linked(t.r, t.n, m))
  }

  /** The path from the hole up to `root` is linked up exactly as c says; the hole holds `hole`. */
  ghost predicate CtxLinked(c: Ctx, root: MemoryBlock?, hole: MemoryBlock?, m: Memory) {
    match c
    case Root => root == hole
    case LeftOf(n, h, e, r, up) =>
      n in m && m[n] == Cell(CtxNode(up), hole, Top(r), h, e) && Linked(r, n, m) && CtxLinked(up, root, n, m)
    case RightOf(l, n, h, e, up) =>
      n in m && m[n] == Cell(CtxNode(up), Top(l), hole, h, e) && Linked(l, n, m) && CtxLinked(up, root, n, m)
  }

  /** m and m' hold the same of every node in s. */
  ghost predicate Agree(m: Memory, m': Memory, s: set<MemoryBlock>) {
    forall n :: n in s && n in m ==> n in m' && m'[n] == m[n]
  }

  lemma {:induction false} LinkedNodes(t: Tree, p: MemoryBlock?, m: Memory)
    requires Linked(t, p, m)
    ensures Nodes(t) <= m.Keys
  {
    if t.Fork? {
      LinkedNodes(t.l, t.n, m);
      LinkedNodes(t.r, t.n, m);
    }
  }

  lemma {:induction false} LinkedFrame(t: Tree, p: MemoryBlock?, m: Memory, m': Memory)
    requires Linked(t, p, m) && Agree(m, m', Nodes(t))
    ensures Linked(t, p, m')
  {
    if t.Fork? {
      assert t.n in Nodes(t);
      LinkedFrame(t.l, t.n, m, m');
      LinkedFrame(t.r, t.n, m, m');
    }
  }

  lemma {:induction false} CtxLinkedFrame(c: Ctx, root: MemoryBlock?, hole: MemoryBlock?, m: Memory, m': Memory)
    requires CtxLinked(c, root, hole, m) && Agree(m, m', CtxNodes(c))
    ensures CtxLinked(c, root, hole, m')
  {
    match c
    case Root =>
    case LeftOf(n, h, e, r, up) =>
      LinkedFrame(r, n, m, m');
      CtxLinkedFrame(up, root, n, m, m');
    case RightOf(l, n, h, e, up) =>
      LinkedFrame(l, n, m, m');
      CtxLinkedFrame(up, root, n, m, m');
  }

  lemma {:induction false} SplitLinked(c: Ctx, t: Tree, root: MemoryBlock?, m: Memory)
    ensures (Linked(Plug(c, t), null, m) && root == Top(Plug(c, t))) <==>
            (Linked(t, CtxNode(c), m) && CtxLinked(c, root, Top(t), m))
    decreases c
  {
    match c
    case Root =>
    case LeftOf(n, h, e, r, up) => SplitLinked(up, Fork(t, n, h, e, r), root, m);
    case RightOf(l, n, h, e, up) => SplitLinked(up, Fork(l, n, h, e, t), root, m);
  }

  /** Where a pointer to a node is stored: `MEMORY_BLOCK **`. */
  datatype Slot = RootSlot | LeftSlot(n: MemoryBlock) | RightSlot(n: MemoryBlock)

  ghost function SlotOf(c: Ctx): Slot {
    match c
    case Root => RootSlot
    case LeftOf(n, _, _, _, _) => LeftSlot(n)
    case RightOf(_, n, _, _, _) => RightSlot(n)
  }

  /** The root pointer and the memory after `*s = v`. */
  ghost function StoreRoot(s: Slot, v: MemoryBlock?, root: MemoryBlock?): MemoryBlock? {
    if s.RootSlot? then v else root
  }

  ghost function StoreMem(s: Slot, v: MemoryBlock?, m: Memory): Memory {
    match s
    case RootSlot => m
    case LeftSlot(n) => if n in m then m[n := m[n].(L := v)] else m
    case RightSlot(n) => if n in m then m[n := m[n].(R := v)] else m
  }

  ghost predicate Apart(c: Ctx, t: Tree) {
    CtxDistinct(c) && Distinct(t) && CtxNodes(c) !! Nodes(t)
  }

  /** Storing into the slot of a hole fills that hole and leaves the rest of the path alone. */
  lemma {:induction false} StoreFills(c: Ctx, root: MemoryBlock?, was: MemoryBlock?, v: MemoryBlock?, m: Memory)
    requires CtxLinked(c, root, was, m) && CtxDistinct(c)
    ensures CtxLinked(c, StoreRoot(SlotOf(c), v, root), v, StoreMem(SlotOf(c), v, m))
  {
    var m' := StoreMem(SlotOf(c), v, m);
    match c
    case Root =>
    case LeftOf(n, h, e, r, up) =>
      LinkedFrame(r, n, m, m');
      CtxLinkedFrame(up, root, n, m, m');
    case RightOf(l, n, h, e, up) =>
      LinkedFrame(l, n, m, m');
      CtxLinkedFrame(up, root, n, m, m');
  }

  /** Changing the parent link of the top node of t moves t below another parent. */
  ghost function Reparent(n: MemoryBlock?, p: MemoryBlock?, m: Memory): Memory {
    if n != null && n in m then m[n := m[n].(P := p)] else m
  }

  lemma {:induction false} ReparentLinks(t: Tree, p: MemoryBlock?, q: MemoryBlock?, m: Memory)
    requires Linked(t, p, m) && Distinct(t)
    ensures Linked(t, q, Reparent(Top(t), q, m))
  {
    if t.Fork? {
      var m' := Reparent(Top(t), q, m);
      LinkedFrame(t.l, t.n, m, m');
      LinkedFrame(t.r, t.n, m, m');
    }
  }

  ghost function HeightIn(m: Memory, n: MemoryBlock?): nat {
    if n != null && n in m then m[n].H else 0
  }

  /** What `AdjustHeight` does. */
  ghost function FixHeight(n: MemoryBlock, m: Memory): Memory
  {
    if n in m then m[n := m[n].(H := Max(HeightIn(m, m[n].L), HeightIn(m, m[n].R)) + 1)] else m
  }

  /** What `AdjustAVL` of kind 0 does to the links below its reference. */
  ghost function LiftRight(n: MemoryBlock, m: Memory): Memory
    requires n in m && m[n].R != null && m[n].R in m
  {
    var c, R := m[n], m[n].R;
    var d := m[R];
    Reparent(d.L, n, m)[n := c.(P := R, R := d.L)][R := d.(P := c.P, L := n)]
  }

  /** What `AdjustAVL` of kind 1 does to the links below its reference. */
  ghost function LiftLeft(n: MemoryBlock, m: Memory): Memory
    requires n in m && m[n].L != null && m[n].L in m
  {
    var c, L := m[n], m[n].L;
    var d := m[L];
    Reparent(d.R, n, m)[n := c.(P := L, L := d.R)][L := d.(P := c.P, R := n)]
  }

  /** Recomputing the height cached at the top of a tree. */
  lemma {:induction false} FixHeightLinks(t: Tree, p: MemoryBlock?, m: Memory)
    requires t.Fork? && Linked(t, p, m) && Distinct(t)
    ensures Linked(Make(t.l, t.n, t.e, t.r), p, FixHeight(t.n, m))
  {
    LinkedFrame(t.l, t.n, m, FixHeight(t.n, m));
    LinkedFrame(t.r, t.n, m, FixHeight(t.n, m));
  }

  /** ... and first the height of its left child, then its own. */
  lemma {:induction false} FixTwoLeft(t: Tree, p: MemoryBlock?, m: Memory)
    requires t.Fork? && t.l.Fork? && Linked(t, p, m) && Distinct(t)
    ensures Linked(Make(Make(t.l.l, t.l.n, t.l.e, t.l.r), t.n, t.e, t.r), p, FixHeight(t.n, FixHeight(t.l.n, m)))
  {
    var m' := FixHeight(t.l.n, m);
    FixHeightLinks(t.l, t.n, m);
    LinkedFrame(t.r, t.n, m, m');
    FixHeightLinks(t.(l := Make(t.l.l, t.l.n, t.l.e, t.l.r)), p, m');
  }

  lemma {:induction false} FixTwoRight(t: Tree, p: MemoryBlock?, m: Memory)
    requires t.Fork? && t.r.Fork? && Linked(t, p, m) && Distinct(t)
    ensures Linked(Make(t.l, t.n, t.e, Make(t.r.l, t.r.n, t.r.e, t.r.r)), p, FixHeight(t.n, FixHeight(t.r.n, m)))
  {
    var m' := FixHeight(t.r.n, m);
    FixHeightLinks(t.r, t.n, m);
    LinkedFrame(t.l, t.n, m, m');
    FixHeightLinks(t.(r := Make(t.r.l, t.r.n, t.r.e, t.r.r)), p, m');
  }

  lemma {:induction false} LiftRightLinks(t: Tree, p: MemoryBlock?, m: Memory)
    requires t.Fork? && t.r.Fork? && Linked(t, p, m) && Distinct(t) && t.r.n in m
    ensures Linked(SwingLeft(t), p, LiftRight(t.n, m)) && Agree(m, LiftRight(t.n, m), m.Keys - Nodes(t))
  {
    var m1 := Reparent(Top(t.r.l), t.n, m);
    var m' := LiftRight(t.n, m);
    ReparentLinks(t.r.l, t.r.n, t.n, m);
    LinkedFrame(t.r.l, t.n, m1, m');
    LinkedFrame(t.l, t.n, m, m');
    LinkedFrame(t.r.r, t.r.n, m, m');
  }

  lemma {:induction false} LiftLeftLinks(t: Tree, p: MemoryBlock?, m: Memory)
    requires t.Fork? && t.l.Fork? && Linked(t, p, m) && Distinct(t) && t.l.n in m
    ensures Linked(SwingRight(t), p, LiftLeft(t.n, m)) && Agree(m, LiftLeft(t.n, m), m.Keys - Nodes(t))
  {
    var m1 := Reparent(Top(t.l.r), t.n, m);
    var m' := LiftLeft(t.n, m);
    ReparentLinks(t.l.r, t.l.n, t.n, m);
    LinkedFrame(t.l.r, t.n, m1, m');
    LinkedFrame(t.r, t.n, m, m');
    LinkedFrame(t.l.l, t.l.n, m, m');
  }

  /** The stores of `AdjustAVL`, in their order, rotate the tree in the hole of c. */
  lemma {:induction false} RotatesLeft(c: Ctx, t: Tree, root: MemoryBlock?, m: Memory)
    requires t.Fork? && t.r.Fork? && Apart(c, t) && t.r.n in m
    requires Linked(t, CtxNode(c), m) && CtxLinked(c, root, t.n, m)
    ensures var m' := FixHeight(t.r.n, FixHeight(t.n, StoreMem(SlotOf(c), t.r.n, LiftRight(t.n, m))));
            Linked(RotateLeft(t), CtxNode(c), m') && CtxLinked(c, StoreRoot(SlotOf(c), t.r.n, root), t.r.n, m')
  {
    var m1 := LiftRight(t.n, m);
    var m2 := StoreMem(SlotOf(c), t.r.n, m1);
    var m' := FixHeight(t.r.n, FixHeight(t.n, m2));
    LiftRightLinks(t, CtxNode(c), m);
    RotateLeftKeepsNodes(t);
    CtxLinkedFrame(c, root, t.n, m, m1);
    StoreFills(c, root, t.n, t.r.n, m1);
    LinkedFrame(SwingLeft(t), CtxNode(c), m1, m2);
    FixTwoLeft(SwingLeft(t), CtxNode(c), m2);
    CtxLinkedFrame(c, StoreRoot(SlotOf(c), t.r.n, root), t.r.n, m2, m');
  }

  lemma {:induction false} RotatesRight(c: Ctx, t: Tree, root: MemoryBlock?, m: Memory)
    requires t.Fork? && t.l.Fork? && Apart(c, t) && t.l.n in m
    requires Linked(t, CtxNode(c), m) && CtxLinked(c, root, t.n, m)
    ensures var m' := FixHeight(t.l.n, FixHeight(t.n, StoreMem(SlotOf(c), t.l.n, LiftLeft(t.n, m))));
            Linked(RotateRight(t), CtxNode(c), m') && CtxLinked(c, StoreRoot(SlotOf(c), t.l.n, root), t.l.n, m')
  {
    var m1 := LiftLeft(t.n, m);
    var m2 := StoreMem(SlotOf(c), t.l.n, m1);
    var m' := FixHeight(t.l.n, FixHeight(t.n, m2));
    LiftLeftLinks(t, CtxNode(c), m);
    RotateRightKeepsNodes(t);
    CtxLinkedFrame(c, root, t.n, m, m1);
    StoreFills(c, root, t.n, t.l.n, m1);
    LinkedFrame(SwingRight(t), CtxNode(c), m1, m2);
    FixTwoRight(SwingRight(t), CtxNode(c), m2);
    CtxLinkedFrame(c, StoreRoot(SlotOf(c), t.l.n, root), t.l.n, m2, m');
  }

  // ---------------------------------------------------------------- unhooking and hanging a node

  /** The only child, or none. */
  ghost function OnlyChild(t: Tree): Tree
    requires t.Fork?
  {
    if t.l.Leaf? then t.r else t.l
  }

  /** Moving the only child of a node into the slot that leads to the node. */
  ghost function Unhook(s: Slot, child: MemoryBlock?, p: MemoryBlock?, m: Memory): Memory {
    Reparent(child, p, StoreMem(s, child, m))
  }

  lemma {:induction false} Unhooks(c: Ctx, t: Tree, root: MemoryBlock?, m: Memory)
    requires t.Fork? && (t.l.Leaf? || t.r.Leaf?) && Apart(c, t)
    requires Linked(t, CtxNode(c), m) && CtxLinked(c, root, t.n, m)
    ensures var child := OnlyChild(t);
            var m' := Unhook(SlotOf(c), Top(child), CtxNode(c), m) - {t.n};
            Linked(child, CtxNode(c), m') && CtxLinked(c, StoreRoot(SlotOf(c), Top(child), root), Top(child), m')
    ensures Apart(c, OnlyChild(t)) && CtxNodes(c) + Nodes(OnlyChild(t)) == CtxNodes(c) + Nodes(t) - {t.n}
  {
    var child := OnlyChild(t);
    assert Nodes(t) == Nodes(child) + {t.n};
    var m1 := StoreMem(SlotOf(c), Top(child), m);
    var m2 := Unhook(SlotOf(c), Top(child), CtxNode(c), m);
    StoreFills(c, root, t.n, Top(child), m);
    LinkedFrame(child, t.n, m, m1);
    ReparentLinks(child, t.n, CtxNode(c), m1);
    LinkedFrame(child, CtxNode(c), m2, m2 - {t.n});
    CtxLinkedFrame(c, StoreRoot(SlotOf(c), Top(child), root), Top(child), m1, m2 - {t.n});
  }

  /** Hanging a childless node into an empty slot. */
  lemma {:induction false} Hangs(c: Ctx, n: MemoryBlock, h: nat, e: Entry, root: MemoryBlock?, m: Memory)
    requires CtxDistinct(c) && n !in CtxNodes(c) && CtxLinked(c, root, null, m)
    ensures var m' := StoreMem(SlotOf(c), n, m[n := Cell(CtxNode(c), null, null, h, e)]);
            Linked(Fork(Leaf, n, h, e, Leaf), CtxNode(c), m') && CtxLinked(c, StoreRoot(SlotOf(c), n, root), n, m')
  {
    var m1 := m[n := Cell(CtxNode(c), null, null, h, e)];
    CtxLinkedFrame(c, root, null, m, m1);
    StoreFills(c, root, null, n, m1);
  }

  /** Overwriting what a node holds, its links as they are. */
  lemma Rewrites(t: Tree, p: MemoryBlock?, h: nat, e: Entry, m: Memory)
    requires t.Fork? && Linked(t, p, m) && Distinct(t)
    ensures t.n in m && Linked(t.(h := h, e := e), p, m[t.n := m[t.n].(H := h, e := e)])
  {
    LinkedFrame(t.l, t.n, m, m[t.n := m[t.n].(H := h, e := e)]);
    LinkedFrame(t.r, t.n, m, m[t.n := m[t.n].(H := h, e := e)]);
  }
}
