/** The producer rings of KERNEL/SOURCE/device/xhci.c: a driver that stores transfer blocks word by word, a controller
    that reads them at any moment, and the cycle bit and link block between them (sections 4.9.2 and 4.9.3 of the xHCI
    specification). */
module XhciRings {

  /** A transfer request block: four words; bit 0 of the last is the cycle bit, bits 10 to 15 are the type. */
  datatype Trb = Trb(d0: nat, d1: nat, d2: nat, d3: nat)

  /** XHCI_RING_ITEMS - 1: the slots that hold blocks; slot 254 holds the link, slot 255 the back pointer of the
      ring. */
  const ITEMS: nat := 254
  const TRB_LINK: nat := 6
  const ZERO: Trb := Trb(0, 0, 0, 0)

  function Cycle(t: Trb): nat { t.d3 % 2 }

  function Type(t: Trb): nat { t.d3 / 1024 % 64 }

  /** The block with `| CCS` on its last word. */
  function Mark(t: Trb, ccs: nat): Trb {
    t.(d3 := t.d3 + (if t.d3 % 2 == 0 then ccs else 0))
  }

  /** What drivers queue: the cycle bit clear, and not a link. */
  predicate Plain(t: Trb) {
    Cycle(t) == 0 && Type(t) != TRB_LINK
  }

  /** xhci.c:325-329: the link to the start of the ring, with the toggle bit. The pointer has no bits 0 to 3. */
  function Link(ring: nat): Trb {
    var rsp := ring / 16;
    Trb(16 * (rsp % 0x1000_0000), rsp / 0x1000_0000, 0, 1024 * TRB_LINK + 2)
  }

  /** Off the ring. */
  const OFF: nat := 256

  /** The slot of the ring at base that the address in the first two words of a link is that of. */
  function SlotAt(t: Trb, base: nat): nat {
    var a := t.d0 / 16 * 16 + 0x1_0000_0000 * t.d1;
    if base <= a < base + 16 * OFF && (a - base) % 16 == 0 then (a - base) / 16 else OFF
  }

  /** A ring fills a page of physical memory. */
  predicate PageBase(base: nat) { base % 0x1000 == 0 && base < 0x1_0000_0000_0000_0000 }

  /** u is t with the cycle bit c, and not another bit changed. */
  predicate Shows(u: Trb, t: Trb, c: nat) {
    u.d0 == t.d0 && u.d1 == t.d1 && u.d2 == t.d2 && u.d3 == t.d3 + c
  }

  function Word(t: Trb, w: nat): nat {
    if w == 0 then t.d0 else if w == 1 then t.d1 else if w == 2 then t.d2 else t.d3
  }

  function PutWord(t: Trb, w: nat, v: nat): Trb {
    if w == 0 then t.(d0 := v) else if w == 1 then t.(d1 := v) else if w == 2 then t.(d2 := v) else t.(d3 := v)
  }

  // ---------------------------------------------------------------- laps

  /** The slot of the n-th block, and how often the ring has been gone round before it. */
  function Pos(n: nat): nat { n % ITEMS }

  function Lap(n: nat): nat { n / ITEMS }

  /** The cycle bit of a lap: 1 on the first. */
  function Bit(lap: nat): nat { 1 - lap % 2 }

  lemma NextPos(n: nat)
    ensures Pos(n) < ITEMS
    ensures if Pos(n) == ITEMS - 1 then Pos(n + 1) == 0 && Lap(n + 1) == Lap(n) + 1
      else Pos(n + 1) == Pos(n) + 1 && Lap(n + 1) == Lap(n)
  {
  }

  lemma SamePos(m: nat, n: nat)
    requires m <= n <= m + ITEMS
    ensures Pos(m) == Pos(n) <==> n == m || n == m + ITEMS
    ensures n == m + ITEMS ==> Lap(n) == Lap(m) + 1
  {
    assert m == ITEMS * Lap(m) + Pos(m) && n == ITEMS * Lap(n) + Pos(n);
    if Pos(m) == Pos(n) { assert n - m == ITEMS * (Lap(n) - Lap(m)); }
  }

  // ---------------------------------------------------------------- driver and controller

  /** Where the driver is: not queueing, or about to store word w of the link or of the block it queues. */
  datatype Phase = Ready | Linking(w: nat, block: Trb) | Copying(w: nat, block: Trb)

  /** RING, NID and CCS of the driver; dequeue pointer, cycle state and progress of the controller; all blocks queued so
      far and all the controller has taken. */
  datatype State = State(ring: seq<Trb>, nid: nat, ccs: nat, phase: Phase, deq: nat, pcs: nat, fetching: bool,
                         queued: seq<Trb>, taken: seq<Trb>)

  /** One store of the driver or one access of the controller. */
  datatype Step = Begin(block: Trb) | Store | Peek | Take

  /** At most 253 blocks may be outstanding when another is queued. */
  predicate Enabled(s: State, step: Step) {
    match step
    case Begin(block) => s.phase.Ready? && Plain(block) && |s.queued| - |s.taken| <= ITEMS - 1
    case Store => !s.phase.Ready?
    case Peek => !s.fetching
    case Take => s.fetching
  }

  function StoreWord(s: State, t: Trb, w: nat): State
    requires s.nid < |s.ring|
  {
    s.(ring := s.ring[s.nid := PutWord(s.ring[s.nid], w, if w == 3 then Word(Mark(t, s.ccs), 3) else Word(t, w))])
  }

  /** The address of the ring stands for what physical_mapping says of it. A controller that is led off the ring by a
      link is at a slot that there is not. */
  function Apply(s: State, step: Step, base: nat): State
    requires Enabled(s, step) && s.nid < |s.ring| && s.deq < |s.ring|
  {
    match step
    case Begin(block) => s.(phase := if s.nid >= ITEMS then Linking(0, block) else Copying(0, block))
    case Store => (
      match s.phase
      case Linking(w, block) =>
        var t := StoreWord(s, Link(base), w);
        if w < 3 then t.(phase := Linking(w + 1, block))
          else t.(nid := 0, ccs := 1 - s.ccs % 2, phase := Copying(0, block))
      case Copying(w, block) =>
        var t := StoreWord(s, block, w);
        if w < 3 then t.(phase := Copying(w + 1, block))
          else t.(nid := s.nid + 1, phase := Ready, queued := s.queued + [block])
      case Ready => s)
    case Peek => s.(fetching := Cycle(s.ring[s.deq]) == s.pcs)
    case Take =>
      var t := s.ring[s.deq];
      if Type(t) == TRB_LINK then s.(deq := SlotAt(t, base), pcs := if t.d3 / 2 % 2 == 1 then 1 - s.pcs % 2
        else s.pcs, fetching := false)
      else s.(deq := s.deq + 1, fetching := false, taken := s.taken + [t])
  }

  // ---------------------------------------------------------------- the invariant

  /** Links stored so far. */
  ghost function Links(s: State): nat {
    var n := |s.queued|;
    if s.phase.Copying? then Lap(n) else if n == 0 then 0 else Lap(n - 1)
  }

  /** NID and CCS follow from the number of blocks queued. */
  ghost predicate Driver(s: State) {
    var n := |s.queued|;
    match s.phase
    case Ready => if n == 0 then s.nid == 0 && s.ccs == 1 else s.nid == Pos(n - 1) + 1 && s.ccs == Bit(Lap(n - 1))
    case Linking(w, block) => w <= 3 && n > 0 && Pos(n) == 0 && s.nid == ITEMS && s.ccs == Bit(Lap(n - 1))
      && Plain(block)
    case Copying(w, block) => w <= 3 && s.nid == Pos(n) && s.ccs == Bit(Lap(n)) && Plain(block)
  }

  /** The controller stands at the next block to take, or at the link before it. */
  ghost predicate Controller(s: State) {
    var t := |s.taken|;
    && (if s.deq == ITEMS then t > 0 && Pos(t) == 0 && s.pcs == Bit(Lap(t - 1))
      else s.deq == Pos(t) && s.pcs == Bit(Lap(t)))
    && (s.fetching ==> if s.deq == ITEMS then Links(s) >= Lap(t) else t < |s.queued|)
  }

  /** No more blocks are outstanding than there are slots, and one less while another is queued. */
  ghost predicate Room(s: State) {
    |s.taken| <= |s.queued| <= |s.taken| + (if s.phase.Ready? then ITEMS else ITEMS - 1)
  }

  /** The first w words are those of t. */
  ghost predicate Begun(u: Trb, t: Trb, w: nat) {
    (w > 0 ==> u.d0 == t.d0) && (w > 1 ==> u.d1 == t.d1) && (w > 2 ==> u.d2 == t.d2)
  }

  /** Every block that is outstanding stands complete in its slot; the one being stored does not show yet. */
  ghost predicate Slots(s: State) {
    var n := |s.queued|;
    && |s.ring| == ITEMS + 2
    && (forall j :: 0 <= j < n && n < j + ITEMS ==> s.ring[Pos(j)] == Mark(s.queued[j], Bit(Lap(j))))
    && (n >= ITEMS && !s.phase.Copying? ==> s.ring[Pos(n - ITEMS)] == Mark(s.queued[n - ITEMS], Bit(Lap(n - ITEMS))))
    && Cycle(s.ring[Pos(n)]) == 1 - Bit(Lap(n))
    && (forall p :: n < p < ITEMS ==> s.ring[p] == ZERO)
    && (s.phase.Copying? ==> Begun(s.ring[Pos(n)], s.phase.block, s.phase.w))
  }

  /** The link is that of the last lap; a new one does not show before it is complete. */
  ghost predicate LinkSlot(s: State, base: nat)
    requires |s.ring| > ITEMS
  {
    && Cycle(s.ring[ITEMS]) == 1 - Bit(Links(s))
    && (if s.phase.Linking? then Begun(s.ring[ITEMS], Link(base), s.phase.w)
        else Links(s) > 0 ==> s.ring[ITEMS] == Mark(Link(base), Bit(Links(s) - 1)))
  }

  /** The controller has taken exactly the blocks queued first, in order and whole. */
  ghost predicate InOrder(s: State) {
    && |s.taken| <= |s.queued|
    && (forall j :: 0 <= j < |s.taken| ==> s.taken[j] == Mark(s.queued[j], Bit(Lap(j))))
    && (forall j :: 0 <= j < |s.queued| ==> Plain(s.queued[j]))
  }

  ghost predicate Inv(s: State, base: nat) {
    PageBase(base) && Slots(s) && LinkSlot(s, base) && Driver(s) && Controller(s) && Room(s) && InOrder(s)
  }

  /** A ring as `XHCICreateTransferRing` leaves it, with CCS set. */
  function Start(back: Trb): State {
    State(seq(255, i => ZERO) + [back], 0, 1, Ready, 0, 1, false, [], [])
  }

  lemma StartInv(back: Trb, base: nat)
    requires PageBase(base)
    ensures Inv(Start(back), base)
  {
  }
  // ---------------------------------------------------------------- every step keeps it

  lemma Marked(t: Trb, lap: nat)
    requires Plain(t)
    ensures var m := Mark(t, Bit(lap));
            Cycle(m) == Bit(lap) && Type(m) == Type(t) && Shows(m, t, Bit(lap))
  {
    var q := t.d3 / 2;
    assert t.d3 == 2 * q;
    SameHigh(q);
  }

  lemma SameHigh(q: nat)
    ensures (2 * q + 1) / 1024 == 2 * q / 1024 && (2 * q + 1) % 2 == 1
  {
    var k, r := q / 512, q % 512;
    assert q == 512 * k + r;
    Within1024(k, 2 * r);
    Within1024(k, 2 * r + 1);
  }

  lemma Within1024(k: nat, r: nat)
    requires r < 1024
    ensures (1024 * k + r) / 1024 == k
  {
  }

  lemma LinkMarked(base: nat, lap: nat)
    ensures var m := Mark(Link(base), Bit(lap)); Cycle(m) == Bit(lap) && Type(m) == TRB_LINK && m.d3 / 2 % 2 == 1
    ensures Cycle(Link(base)) == 0
  {
  }

  /** The link leads to slot 0, and nothing but its type and the toggle bit is set besides. */
  lemma LinkLeads(base: nat, lap: nat)
    requires PageBase(base)
    ensures var m := Mark(Link(base), Bit(lap));
            && m.d0 + 0x1_0000_0000 * m.d1 == base && m.d0 < 0x1_0000_0000 && m.d1 < 0x1_0000_0000
            && m.d2 == 0 && m.d3 == 0x1802 + Bit(lap) && SlotAt(m, base) == 0
  {
    var m, rsp := Mark(Link(base), Bit(lap)), base / 16;
    assert base == 16 * rsp by { PageSixteens(base); }
    LinkMarked(base, lap);
    MarkWords(Link(base), Bit(lap));
    Toggle(lap);
    hide Bit;
    assert m.d3 == 0x1802 + Bit(lap);
  }

  /** Any address of a block of the ring is that of its slot, and no other is. */
  lemma SlotAtIs(t: Trb, base: nat, a: nat)
    requires PageBase(base) && a % 16 == 0 && t.d0 == a % 0x1_0000_0000 && t.d1 == a / 0x1_0000_0000
    ensures if base <= a < base + 0x1000 then base + 16 * SlotAt(t, base) == a else SlotAt(t, base) == 256
  {
    var d := a / 0x1_0000_0000;
    assert t.d0 == a - 0x1_0000_0000 * d && t.d0 / 16 * 16 == t.d0 by { PartSixteens(a, d); }
    PageSixteens(base);
    if base <= a { Difference(a / 16, base / 16); }
  }

  lemma PartSixteens(a: nat, d: nat)
    requires a % 16 == 0 && a >= 0x1_0000_0000 * d
    ensures (a - 0x1_0000_0000 * d) / 16 * 16 == a - 0x1_0000_0000 * d
  {
    var q := a / 16;
    assert a - 0x1_0000_0000 * d == 16 * (q - 0x1000_0000 * d);
    Sixteenth(q - 0x1000_0000 * d);
  }

  lemma Difference(p: nat, q: nat)
    requires p >= q
    ensures (16 * p - 16 * q) % 16 == 0 && (16 * p - 16 * q) / 16 == p - q
  {
    var d := p - q;
    assert 16 * p - 16 * q == 16 * d;
    Sixteenth(d);
  }

  lemma PageSixteens(base: nat)
    requires base % 0x1000 == 0
    ensures base == 16 * (base / 16)
  {
    var q := base / 0x1000;
    assert base == 16 * (256 * q);
    Sixteenth(256 * q);
  }

  lemma Sixteenth(q: nat)
    ensures 16 * q / 16 == q
  {
  }

  lemma Toggle(lap: nat)
    ensures Bit(lap) <= 1 && Bit(lap + 1) == 1 - Bit(lap) == 1 - Bit(lap) % 2
  {
  }

  lemma BeginKeeps(s: State, base: nat, block: Trb)
    requires Inv(s, base) && Enabled(s, Begin(block))
    ensures Inv(Apply(s, Begin(block), base), base)
  {
    var t := Apply(s, Begin(block), base);
    BeginDriver(s, t, block);
    hide Driver, Pos, Lap, Bit, Cycle, Type, Mark, Link, Links, Plain;
    BeginSlots(s, t);
  }

  /** The driver's first step leaves the number of links as it is. */
  lemma BeginDriver(s: State, t: State, block: Trb)
    requires Driver(s) && s.phase.Ready? && Plain(block)
    requires t == s.(phase := if s.nid >= ITEMS then Linking(0, block) else Copying(0, block))
    ensures Driver(t) && Links(t) == Links(s)
  {
    var n := |s.queued|;
    if n > 0 { NextPos(n - 1); }
    hide Plain;
  }

  lemma BeginSlots(s: State, t: State)
    requires Slots(s) && t.ring == s.ring && t.queued == s.queued && s.phase.Ready?
      && (t.phase.Copying? ==> t.phase.w == 0)
    ensures Slots(t)
  {
    hide Pos, Lap, Bit, Cycle, Mark;
  }

  /** Facts about the laps around a number of blocks, for proofs that need no more. */
  lemma Laps(n: nat)
    ensures Pos(n) < ITEMS && (forall j: nat :: Pos(j) < ITEMS)
      && (forall l: nat :: Bit(l) <= 1 && Bit(l + 1) == 1 - Bit(l))
    ensures n > 0 && Pos(n) == 0 ==> Lap(n) == Lap(n - 1) + 1
    ensures forall j: nat :: j < n < j + ITEMS ==> Pos(j) != Pos(n)
  {
    forall j: nat ensures Pos(j) < ITEMS { NextPos(j); }
    if n > 0 { NextPos(n - 1); }
    forall j: nat | j < n < j + ITEMS ensures Pos(j) != Pos(n) { SamePos(j, n); }
    forall l: nat ensures Bit(l) <= 1 && Bit(l + 1) == 1 - Bit(l) { Toggle(l); }
  }

  lemma LinkingKeeps(s: State, base: nat)
    requires Inv(s, base) && s.phase.Linking?
    ensures Inv(Apply(s, Store, base), base)
  {
    hide Pos, Lap, Bit, Cycle, Type, Mark, Link, SlotAt, PageBase, LinkSlot;
    InBounds(s, base);
    var n := |s.queued|;
    var t := Apply(s, Store, base);
    Laps(n);
    LinkMarked(base, Lap(n - 1));
    MarkWords(Link(base), Bit(Lap(n - 1)));
    assert t.ring == s.ring[ITEMS := t.ring[ITEMS]];
    assert LinkSlot(t, base) by { LinkStored(s, t, base); }
    assert Slots(t) by { LinkApart(s, t); }
    hide Slots;
  }

  /** The slot of the link holds no block. */
  lemma LinkApart(s: State, t: State)
    requires Slots(s) && |t.ring| == ITEMS + 2 && t.ring == s.ring[ITEMS := t.ring[ITEMS]]
    requires t.queued == s.queued && Pos(|s.queued|) == 0
    requires s.phase.Linking? && (t.phase.Linking? || (t.phase.Copying? && t.phase.w == 0))
    ensures Slots(t)
  {
    Laps(|s.queued|);
    hide Pos, Lap, Bit, Cycle, Mark;
  }

  lemma MarkWords(t: Trb, c: nat)
    ensures Mark(t, c).d0 == t.d0 && Mark(t, c).d1 == t.d1 && Mark(t, c).d2 == t.d2
  {
  }

  lemma LinkStored(s: State, t: State, base: nat)
    requires |s.ring| > ITEMS && LinkSlot(s, base) && Driver(s) && s.phase.Linking? && Enabled(s, Store)
      && s.nid < |s.ring| && s.deq < |s.ring|
    requires t == Apply(s, Store, base)
    ensures LinkSlot(t, base)
  {
    hide Pos, Lap, Bit, Cycle, Type, Mark, Link, SlotAt, PageBase;
    var n := |s.queued|;
    Laps(n);
    LinkMarked(base, Lap(n - 1));
    MarkWords(Link(base), Bit(Lap(n - 1)));
    SameCycle(s.ring[ITEMS], t.ring[ITEMS]);
  }

  lemma SameCycle(t: Trb, u: Trb)
    ensures t.d3 == u.d3 ==> Cycle(t) == Cycle(u)
  {
  }

  lemma CopyingKeeps(s: State, base: nat)
    requires Inv(s, base) && s.phase.Copying?
    ensures Inv(Apply(s, Store, base), base)
  {
    hide Pos, Lap, Bit, Cycle, Type, Mark, Link, SlotAt, PageBase;
    InBounds(s, base);
    var n := |s.queued|;
    var t := Apply(s, Store, base);
    Laps(n);
    SmallPos(n);
    if s.phase.w == 3 {
      CopiedKeeps(s, base);
    } else {
      SameCycle(s.ring[Pos(n)], t.ring[Pos(n)]);
    }
  }

  /** The last word publishes the block. */
  lemma CopiedKeeps(s: State, base: nat)
    requires Inv(s, base) && s.phase.Copying? && s.phase.w == 3
    ensures Inv(Apply(s, Store, base), base)
  {
    hide Pos, Lap, Bit, Cycle, Type, Mark, Link, SlotAt, PageBase, Begun;
    InBounds(s, base);
    var n := |s.queued|;
    var t := Apply(s, Store, base);
    Laps(n);
    Published(s, base);
    NextFree(s, t);
  }

  lemma Published(s: State, base: nat)
    requires Slots(s) && Driver(s) && s.phase.Copying? && s.phase.w == 3 && s.nid < |s.ring| && s.deq < |s.ring|
    ensures var t := Apply(s, Store, base);
            t.ring == s.ring[s.nid := Mark(s.phase.block, s.ccs)]
  {
    MarkWords(s.phase.block, s.ccs);
    hide Pos, Lap, Bit, Mark;
  }

  lemma NextFree(s: State, t: State)
    requires Slots(s) && s.phase.Copying? && InOrder(s) && |t.ring| == |s.ring|
      && t.queued == s.queued + [s.phase.block] && t.phase.Ready?
    requires Plain(s.phase.block) && Pos(|s.queued|) < ITEMS
      && t.ring == s.ring[Pos(|s.queued|) := Mark(s.phase.block, Bit(Lap(|s.queued|)))]
    ensures Slots(t)
  {
    hide Pos, Lap, Bit, Cycle, Type, Mark, Link, SlotAt, PageBase, Begun, Plain;
    var n := |s.queued|;
    Laps(n);
    Laps(n + 1);
    SmallPos(n);
    SmallPos(n + 1);
    if n + 1 >= ITEMS { LapBefore(t.queued[n + 1 - ITEMS], n + 1 - ITEMS); }
    CycleOfZero();
  }

  lemma SmallPos(n: nat)
    ensures n < ITEMS ==> Pos(n) == n && Lap(n) == 0
  {
  }

  lemma CycleOfZero()
    ensures Cycle(ZERO) == 1 - Bit(0)
  {
  }

  /** A block one lap back shows the other cycle bit, in the same slot. */
  lemma LapBefore(b: Trb, j: nat)
    requires Plain(b)
    ensures Pos(j + ITEMS) == Pos(j) && Cycle(Mark(b, Bit(Lap(j)))) == 1 - Bit(Lap(j + ITEMS))
  {
    SamePos(j, j + ITEMS);
    Toggle(Lap(j));
    Marked(b, Lap(j));
  }

  lemma PeekKeeps(s: State, base: nat)
    requires Inv(s, base) && !s.fetching
    ensures Inv(Apply(s, Peek, base), base)
  {
    hide Pos, Lap, Bit, Cycle, Type, Mark, Link, SlotAt, PageBase, Begun;
    InBounds(s, base);
    PeekSees(s, base);
  }

  /** The cycle bit tells the controller exactly whether there is something for it. */
  lemma PeekSees(s: State, base: nat)
    requires Inv(s, base)
    ensures s.deq < |s.ring|
    ensures s.deq == ITEMS ==> (Cycle(s.ring[s.deq]) == s.pcs <==> Links(s) >= Lap(|s.taken|))
    ensures s.deq != ITEMS ==> (Cycle(s.ring[s.deq]) == s.pcs <==> |s.taken| < |s.queued|)
  {
    var n, t := |s.queued|, |s.taken|;
    if s.deq == ITEMS {
      LinkLap(s);
      Toggle(Lap(t - 1));
      hide Pos, Lap, Bit, Cycle, Type, Mark, Link, Slots, InOrder, Begun;
    } else {
      Toggle(Lap(t));
      NextPos(t);
      if t < n {
        Outstanding(s, base, t);
        Marked(s.queued[t], Lap(t));
      }
      hide Pos, Lap, Bit, Cycle, Type, Mark, Link, Begun;
    }
  }

  /** At the link, the driver has just reached the end of the lap or is on the next one. */
  lemma LinkLap(s: State)
    requires Driver(s) && Controller(s) && Room(s) && s.deq == ITEMS
    ensures Lap(|s.taken|) == Lap(|s.taken| - 1) + 1
    ensures Links(s) == Lap(|s.taken|) - 1 || (Links(s) == Lap(|s.taken|) && !s.phase.Linking?)
    ensures Links(s) == Lap(|s.taken|) <==> |s.queued| > |s.taken| || s.phase.Copying?
  {
    var n, t := |s.queued|, |s.taken|;
    NextPos(t - 1);
    assert t == ITEMS * Lap(t);
    if n > t { Within(Lap(t), n - 1 - t); SamePos(t, n); }
    if n < t + ITEMS { Within(Lap(t), n - t); }
    hide Pos, Lap, Bit;
  }

  lemma Within(l: nat, d: nat)
    requires d < ITEMS
    ensures Lap(ITEMS * l + d) == l
  {
  }

  lemma TakeKeeps(s: State, base: nat)
    requires Inv(s, base) && s.fetching
    ensures Inv(Apply(s, Take, base), base)
  {
    hide Pos, Lap, Bit, Cycle, Type, Mark, Link, SlotAt, PageBase, Begun, Plain, Slots, LinkSlot, Driver, Links;
    InBounds(s, base);
    var t := |s.taken|;
    TakeSees(s, base);
    Laps(t);
    NextPos(t);
    DriverSame(s, Apply(s, Take, base), base);
  }

  /** What the controller does is nothing to the driver's side. */
  lemma DriverSame(s: State, t: State, base: nat)
    requires t.ring == s.ring && t.queued == s.queued && t.phase == s.phase && t.nid == s.nid && t.ccs == s.ccs
      && |s.ring| > ITEMS
    ensures (Slots(t) <==> Slots(s)) && (LinkSlot(t, base) <==> LinkSlot(s, base)) && (Driver(t) <==> Driver(s))
      && Links(t) == Links(s)
  {
    hide Pos, Lap, Bit, Cycle, Type, Mark, Link, Begun, Plain;
  }

  /** What the controller reads is the link of this lap, or the next block, whole. */
  lemma TakeSees(s: State, base: nat)
    requires Inv(s, base) && s.fetching
    ensures s.deq < |s.ring|
    ensures s.deq == ITEMS ==> Type(s.ring[s.deq]) == TRB_LINK && s.ring[s.deq].d3 / 2 % 2 == 1 && |s.taken| > 0
    ensures s.deq == ITEMS ==> SlotAt(s.ring[s.deq], base) == 0
                               && s.ring[s.deq].d0 + 0x1_0000_0000 * s.ring[s.deq].d1 == base
    ensures s.deq == ITEMS ==> 1 - s.pcs % 2 == Bit(Lap(|s.taken|))
    ensures s.deq != ITEMS ==> |s.taken| < |s.queued| && s.ring[s.deq] == Mark(s.queued[|s.taken|], Bit(Lap(|s.taken|)))
                               && Type(s.ring[s.deq]) != TRB_LINK
  {
    var n, t := |s.queued|, |s.taken|;
    if s.deq == ITEMS {
      LinkLap(s);
      LinkMarked(base, Lap(t - 1));
      LinkLeads(base, Lap(t - 1));
      Toggle(Lap(t - 1));
      hide Pos, Lap, Bit, Cycle, Type, Mark, Link, SlotAt, PageBase, Slots, InOrder, Begun;
    } else {
      Outstanding(s, base, t);
      Marked(s.queued[t], Lap(t));
      NextPos(t);
      hide Pos, Lap, Bit, Cycle, Type, Mark, Link, Begun;
    }
  }

  /** A block that is outstanding stands in its slot. */
  lemma Outstanding(s: State, base: nat, j: nat)
    requires Inv(s, base) && |s.taken| <= j < |s.queued|
    ensures s.ring[Pos(j)] == Mark(s.queued[j], Bit(Lap(j)))
  {
    if |s.queued| == j + ITEMS { assert j == |s.queued| - ITEMS; }
  }

  /** Whatever the driver and the controller do next, the invariant holds, and slot 255 is as it was. */
  lemma StepKeeps(s: State, step: Step, base: nat)
    requires Inv(s, base) && Enabled(s, step)
    ensures s.nid < |s.ring| && s.deq < |s.ring|
    ensures Inv(Apply(s, step, base), base) && Apply(s, step, base).ring[255] == s.ring[255]
  {
    InBounds(s, base);
    match step {
      case Begin(block) => BeginKeeps(s, base, block);
      case Store => if s.phase.Linking? { LinkingKeeps(s, base); } else { CopyingKeeps(s, base); }
      case Peek => PeekKeeps(s, base);
      case Take => TakeKeeps(s, base);
    }
    hide Inv, Pos, Lap, Bit, Cycle, Type, Mark, Link;
  }

  lemma InBounds(s: State, base: nat)
    requires Inv(s, base)
    ensures |s.ring| == 256 && s.nid <= ITEMS && s.deq <= ITEMS
  {
    NextPos(|s.queued|);
    NextPos(|s.taken|);
    if |s.queued| > 0 { NextPos(|s.queued| - 1); }
  }
  // ---------------------------------------------------------------- whole runs

  /** The steps lead from s to t, each where it is enabled. */
  ghost predicate Runs(s: State, steps: seq<Step>, t: State, base: nat)
    decreases |steps|
  {
    if steps == [] then t == s
    else
      && Enabled(s, steps[0]) && s.nid < |s.ring| && s.deq < |s.ring|
      && Runs(Apply(s, steps[0], base), steps[1..], t, base)
  }

  lemma {:induction false} RunKeeps(s: State, steps: seq<Step>, t: State, base: nat)
    requires Inv(s, base) && Runs(s, steps, t, base)
    ensures Inv(t, base) && |t.ring| == |s.ring| == 256 && t.ring[255] == s.ring[255]
    decreases |steps|
  {
    InBounds(s, base);
    hide Inv, Apply, Enabled;
    if steps != [] {
      StepKeeps(s, steps[0], base);
      InBounds(Apply(s, steps[0], base), base);
      RunKeeps(Apply(s, steps[0], base), steps[1..], t, base);
    }
  }

  /** At every interleaving, for any number of laps, the controller has taken exactly the first blocks queued, in order
      and word for word, but for the cycle bit; it has never left the ring; and the back pointer in slot 255 stands. */
  lemma {:induction false} FirstInFirstOut(back: Trb, base: nat, steps: seq<Step>, t: State)
    requires PageBase(base) && Runs(Start(back), steps, t, base)
    ensures |t.taken| <= |t.queued| && |t.ring| == 256 && t.ring[255] == back && t.deq <= ITEMS
    ensures forall j :: 0 <= j < |t.taken| ==> Shows(t.taken[j], t.queued[j], Bit(Lap(j)))
  {
    StartInv(back, base);
    RunKeeps(Start(back), steps, t, base);
    InBounds(t, base);
    forall j | 0 <= j < |t.taken| ensures Shows(t.taken[j], t.queued[j], Bit(Lap(j))) {
      Marked(t.queued[j], Lap(j));
    }
    hide Mark, Lap, Bit, Cycle, Type;
  }

  /** The limit on outstanding blocks is exact: the slot the next block goes to holds none that is outstanding, just
      when at most 253 are. */
  lemma LimitIsExact(n: nat, t: nat)
    requires t <= n <= t + ITEMS
    ensures (forall j: nat :: t <= j < n ==> Pos(j) != Pos(n)) <==> n - t <= ITEMS - 1
  {
    forall j: nat | t <= j < n ensures Pos(j) == Pos(n) <==> n == j + ITEMS { SamePos(j, n); }
    if n == t + ITEMS { assert t < n && Pos(t) == Pos(n); }
  }

  // ---------------------------------------------------------------- the driver's own functions

  ghost function StoresLeft(p: Phase): nat {
    match p
    case Ready => 0
    case Linking(w, _) => if w <= 3 then 8 - w else 4
    case Copying(w, _) => if w <= 3 then 4 - w else 0
  }

  /** All the stores that are still due, one after another. */
  ghost function Finish(s: State, base: nat): State
    requires |s.ring| == 256 && s.nid <= ITEMS && s.deq <= ITEMS
    requires match s.phase { case Ready => true case Linking(w, _) => w <= 3 case Copying(w, _) => w <= 3
      && s.nid < ITEMS }
    decreases StoresLeft(s.phase)
  {
    if s.phase.Ready? then s else Finish(Apply(s, Store, base), base)
  }

  /** The whole of a block is stored where NID points. */
  lemma {:induction false} FinishCopying(s: State, base: nat)
    requires |s.ring| == 256 && s.nid < ITEMS && s.deq <= ITEMS && s.phase.Copying? && s.phase.w == 0
    ensures Finish(s, base) == s.(ring := s.ring[s.nid := Mark(s.phase.block, s.ccs)], nid := s.nid + 1, phase := Ready,
                                  queued := s.queued + [s.phase.block])
  {
    var s1 := Apply(s, Store, base);
    var s2 := Apply(s1, Store, base);
    var s3 := Apply(s2, Store, base);
    var s4 := Apply(s3, Store, base);
    MarkWords(s.phase.block, s.ccs);
    hide Mark, Link, Finish;
    assert s4.ring[s.nid] == Mark(s.phase.block, s.ccs);
    assert s4.ring == s.ring[s.nid := Mark(s.phase.block, s.ccs)];
    FourStores(s, s1, s2, s3, s4, base);
  }

  lemma {:induction false} FourStores(s: State, s1: State, s2: State, s3: State, s4: State, base: nat)
    requires |s.ring| == 256 && s.nid <= ITEMS && s.deq <= ITEMS && (s.phase.Copying? ==> s.nid < ITEMS)
    requires (s.phase.Copying? || s.phase.Linking?) && s.phase.w == 0
    requires s1 == Apply(s, Store, base) && s2 == Apply(s1, Store, base) && s3 == Apply(s2, Store, base)
      && s4 == Apply(s3, Store, base)
    ensures |s4.ring| == 256 && Finish(s, base) == Finish(s4, base)
  {
    hide Mark, Link;
    assert Finish(s, base) == Finish(s1, base);
    assert Finish(s1, base) == Finish(s2, base);
    assert Finish(s2, base) == Finish(s3, base);
  }

  /** The link is stored first where the ring is at its end. */
  lemma FinishLinking(s: State, base: nat)
    requires |s.ring| == 256 && s.nid == ITEMS && s.deq <= ITEMS && s.phase.Linking? && s.phase.w == 0
    ensures Finish(s, base) == Finish(s.(ring := s.ring[ITEMS := Mark(Link(base), s.ccs)], nid := 0,
      ccs := 1 - s.ccs % 2,
                                         phase := Copying(0, s.phase.block)), base)
  {
    var s1 := Apply(s, Store, base);
    var s2 := Apply(s1, Store, base);
    var s3 := Apply(s2, Store, base);
    var s4 := Apply(s3, Store, base);
    MarkWords(Link(base), s.ccs);
    hide Mark, Link, Finish;
    assert s4.ring[ITEMS] == Mark(Link(base), s.ccs);
    assert s4.ring == s.ring[ITEMS := Mark(Link(base), s.ccs)];
    FourStores(s, s1, s2, s3, s4, base);
  }

  // ---------------------------------------------------------------- beyond the limit

  lemma {:induction false} RunsOn(s: State, steps: seq<Step>, t: State, more: seq<Step>, u: State, base: nat)
    requires Runs(s, steps, t, base) && Runs(t, more, u, base)
    ensures Runs(s, steps + more, u, base)
    decreases |steps|
  {
    hide Apply, Enabled;
    if steps == [] {
      assert steps + more == more;
    } else {
      assert (steps + more)[0] == steps[0] && (steps + more)[1..] == steps[1..] + more;
      RunsOn(Apply(s, steps[0], base), steps[1..], t, more, u, base);
    }
  }

  /** A whole block is queued by five steps where the ring is not at its end. */
  lemma QueueSteps(s: State, base: nat, block: Trb)
    requires |s.ring| == 256 && s.nid < ITEMS && s.deq <= ITEMS && Enabled(s, Begin(block))
    ensures Runs(s, [Begin(block), Store, Store, Store, Store],
                 s.(ring := s.ring[s.nid := Mark(block, s.ccs)], nid := s.nid + 1, queued := s.queued + [block]), base)
  {
    var s0 := Apply(s, Begin(block), base);
    var s1 := Apply(s0, Store, base);
    var s2 := Apply(s1, Store, base);
    var s3 := Apply(s2, Store, base);
    var s4 := Apply(s3, Store, base);
    MarkWords(block, s.ccs);
    hide Mark, Link;
    assert s4.ring[s.nid] == Mark(block, s.ccs);
    assert s4.ring == s.ring[s.nid := Mark(block, s.ccs)];
    hide Apply;
    assert Runs(s4, [], s4, base);
    assert Runs(s3, [Store], s4, base) by { assert [Store][1..] == []; }
    assert Runs(s2, [Store, Store], s4, base) by { assert [Store, Store][1..] == [Store]; }
    assert Runs(s1, [Store, Store, Store], s4, base) by { assert [Store, Store, Store][1..] == [Store, Store]; }
    assert Runs(s0, [Store, Store, Store, Store], s4, base) by {
      assert [Store, Store, Store, Store][1..] == [Store, Store, Store];
    }
    assert [Begin(block), Store, Store, Store, Store][1..] == [Store, Store, Store, Store];
  }

  /** A driver can queue 254 blocks before the controller takes any. */
  lemma {:induction false} Fill(back: Trb, base: nat, block: Trb, n: nat) returns (steps: seq<Step>, t: State)
    requires n <= ITEMS && Plain(block)
    ensures Runs(Start(back), steps, t, base) && t.phase.Ready? && |t.queued| == n && t.taken == []
    ensures |t.ring| == 256 && t.nid == n && t.deq == 0
    decreases n
  {
    if n == 0 {
      steps, t := [], Start(back);
    } else {
      var first, s := Fill(back, base, block, n - 1);
      QueueSteps(s, base, block);
      t := s.(ring := s.ring[s.nid := Mark(block, s.ccs)], nid := s.nid + 1, queued := s.queued + [block]);
      steps := first + [Begin(block), Store, Store, Store, Store];
      hide Runs, Mark;
      RunsOn(Start(back), first, s, [Begin(block), Store, Store, Store, Store], t, base);
    }
  }

  /** What `XHCIQueueTRB` would leave, whether or not there is room. */
  ghost function Forced(s: State, base: nat, block: Trb): State
    requires |s.ring| == 256 && s.nid <= ITEMS && s.deq <= ITEMS
  {
    Finish(s.(phase := if s.nid >= ITEMS then Linking(0, block) else Copying(0, block)), base)
  }

  /** With 254 blocks outstanding, queueing one more destroys the first of them: its slot then holds another lap's cycle
      bit. */
  lemma OneMoreOverruns(s: State, base: nat, block: Trb)
    requires Inv(s, base) && s.phase.Ready? && Plain(block) && |s.queued| == |s.taken| + ITEMS
    ensures |s.ring| == 256 && s.nid <= ITEMS && s.deq <= ITEMS
    ensures var k := |s.taken|;
            && Pos(k) < 256 && s.ring[Pos(k)] == Mark(s.queued[k], Bit(Lap(k)))
            && |Forced(s, base, block).ring| == 256
            && Forced(s, base, block).ring[Pos(k)] == Mark(block, Bit(Lap(k) + 1))
            && Cycle(Forced(s, base, block).ring[Pos(k)]) != Cycle(s.ring[Pos(k)])
  {
    hide *;
    var k := |s.taken|;
    WhereNext(s, base);
    Outstanding(s, base, k);
    ForcedRing(s, base, block);
    Marked(block, Lap(k) + 1);
    Marked(s.queued[k], Lap(k));
    Toggle(Lap(k));
  }

  /** The slots that are stored to. */
  lemma ForcedRing(s: State, base: nat, block: Trb)
    requires |s.ring| == 256 && s.nid <= ITEMS && s.deq <= ITEMS && s.phase.Ready?
    ensures |Forced(s, base, block).ring| == 256
    ensures if s.nid == ITEMS then Forced(s, base, block).ring[0] == Mark(block, 1 - s.ccs % 2)
            else Forced(s, base, block).ring[s.nid] == Mark(block, s.ccs)
  {
    hide Mark, Link, Finish;
    var t := s.(phase := if s.nid >= ITEMS then Linking(0, block) else Copying(0, block));
    if s.nid >= ITEMS {
      FinishLinking(t, base);
      t := t.(ring := t.ring[ITEMS := Mark(Link(base), s.ccs)], nid := 0, ccs := 1 - s.ccs % 2,
        phase := Copying(0, block));
    }
    FinishCopying(t, base);
  }

  lemma WhereNext(s: State, base: nat)
    requires Inv(s, base) && s.phase.Ready? && |s.queued| == |s.taken| + ITEMS
    ensures |s.ring| == 256 && s.nid <= ITEMS && s.deq <= ITEMS && Plain(s.queued[|s.taken|])
    ensures var k := |s.taken|;
            Pos(k) < ITEMS < 256 && if Pos(k) == 0 then s.nid == ITEMS && s.ccs == Bit(Lap(k))
              else s.nid == Pos(k) && s.ccs == Bit(Lap(k) + 1)
  {
    var n, k := |s.queued|, |s.taken|;
    InBounds(s, base);
    NextPos(n - 1);
    NextPos(k);
    SamePos(k, n);
    hide Pos, Lap, Slots, LinkSlot, Controller;
  }

  class TransferRing {
    const RING: array<Trb>
    const base: nat
    var NID: nat
    var CCS: nat

    /** `XHCICreateTransferRing`: a page of zeros, with the back pointer behind the items; CCS is set by the callers. */
    constructor (base: nat, back: Trb)
      ensures this.base == base && fresh(RING) && Is(Start(back))
      ensures RING.Length == 256 && RING[255] == back && forall i :: 0 <= i < 255 ==> RING[i] == Trb(0, 0, 0, 0)
      ensures NID == 0 && CCS == 1
    {
      this.base := base;
      RING := new Trb[256](_ => ZERO);
      NID, CCS := 0, 1;
      new;
      RING[255] := back;
      assert RING[..] == Start(back).ring;
    }

    /** The ring is the driver's side of a state in which nothing is being queued. */
    ghost predicate Is(s: State)
      reads this, RING
    {
      s.phase.Ready? && s.ring == RING[..] && s.nid == NID && s.ccs == CCS
    }

    /** `XHCICopyTRB`. */
    method CopyTRB(element: Trb)
      requires NID < RING.Length && CCS <= 1
      modifies RING
      ensures RING[..] == old(RING[..])[NID := Mark(element, CCS)]
      ensures Shows(RING[NID], element, if Cycle(element) == 0 then CCS else 0)
    {
      RING[NID] := RING[NID].(d0 := element.d0);
      RING[NID] := RING[NID].(d1 := element.d1);
      RING[NID] := RING[NID].(d2 := element.d2);
      RING[NID] := RING[NID].(d3 := if element.d3 % 2 == 0 then element.d3 + CCS else element.d3);
    }

    /** `XHCIQueueTRB`: what it does between two accesses of the controller is what the stores of the machine do. */
    method QueueTRB(block: Trb, ghost s: State)
      requires RING.Length == 256 && NID <= ITEMS && CCS <= 1 && Is(s) && Enabled(s, Begin(block)) && s.deq <= ITEMS
      modifies this, RING
      ensures Is(Finish(Apply(s, Begin(block), base), base)) && NID <= ITEMS && CCS <= 1
      ensures Finish(Apply(s, Begin(block), base), base).queued == s.queued + [block]
    {
      hide Mark, Link, Finish, Cycle, Type;
      ghost var t := Apply(s, Begin(block), base);
      if NID >= ITEMS {
        FinishLinking(t, base);
        CopyTRB(Link(base));
        NID := 0;
        CCS := 1 - CCS;
        t := t.(ring := t.ring[ITEMS := Mark(Link(base), s.ccs)], nid := 0, ccs := 1 - s.ccs % 2,
          phase := Copying(0, block));
      }
      FinishCopying(t, base);
      CopyTRB(block);
      NID := NID + 1;
    }
  }
}
