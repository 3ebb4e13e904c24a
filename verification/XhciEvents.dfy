/** The event ring of KERNEL/SOURCE/device/xhci.c, and how a driver learns from it that what it queued is done
    (section 4.9.4 of the xHCI specification). */
module XhciEvents {
  import opened XhciRings

  /** XHCI_RING_ITEMS: the event segment has 255 slots and no link. */
  const SLOTS: nat := 255
  const TRB_TRANSFER: nat := 32
  const TRB_COMMAND_COMPLETE: nat := 33
  const TRB_PORT_STATUS_CHANGE: nat := 34

  function Slot(n: nat): nat { n % SLOTS }

  function Round(n: nat): nat { n / SLOTS }

  lemma NextSlot(n: nat)
    ensures Slot(n) < SLOTS
    ensures if Slot(n) == SLOTS - 1 then Slot(n + 1) == 0 && Round(n + 1) == Round(n) + 1
      else Slot(n + 1) == Slot(n) + 1 && Round(n + 1) == Round(n)
  {
  }

  lemma SameSlot(m: nat, n: nat)
    requires m <= n <= m + SLOTS
    ensures Slot(m) == Slot(n) <==> n == m || n == m + SLOTS
  {
    assert m == SLOTS * Round(m) + Slot(m) && n == SLOTS * Round(n) + Slot(n);
    if Slot(m) == Slot(n) { assert n - m == SLOTS * (Round(n) - Round(m)); }
  }

  // ---------------------------------------------------------------- consumer and controller

  /** Where `XHCIProcessEvent` is: at its tests, past them with the event it saw, or past the memset. */
  datatype Phase = Idle | Seen(event: Trb) | Cleared(event: Trb)

  datatype Events = Events(ring: seq<Trb>, nid: nat, ccs: nat, phase: Phase, posted: seq<Trb>, handled: seq<Trb>)

  datatype Move = Post(event: Trb) | Check | Clear | Advance

  /** The controller posts only into slots that ERDP says have been left. */
  predicate Allowed(s: Events, move: Move) {
    match move
    case Post(event) => Cycle(event) == 0 && Type(event) != 0 && |s.posted| - |s.handled| < SLOTS
    case Check => s.phase.Idle?
    case Clear => s.phase.Seen?
    case Advance => s.phase.Cleared?
  }

  function Do(s: Events, move: Move): Events
    requires Allowed(s, move) && |s.ring| == SLOTS && s.nid < SLOTS
  {
    match move
    case Post(event) =>
      NextSlot(|s.posted|);
      s.(ring := s.ring[Slot(|s.posted|) := Mark(event, Bit(Round(|s.posted|)))], posted := s.posted + [event])
    case Check =>
      var t := s.ring[s.nid];
      if Type(t) == 0 || Cycle(t) != s.ccs then s else s.(phase := Seen(t))
    case Clear => s.(ring := s.ring[s.nid := ZERO], phase := Cleared(s.phase.event))
    case Advance =>
      s.(nid := if s.nid + 1 == SLOTS then 0 else s.nid + 1, ccs := if s.nid + 1 == SLOTS then 1 - s.ccs % 2 else s.ccs,
         phase := Idle, handled := s.handled + [s.phase.event])
  }

  /** Every event that is pending stands in its slot, every other slot is zero, and the events handled are the first
      ones posted. */
  ghost predicate Good(s: Events) {
    var h, p := |s.handled|, |s.posted|;
    && |s.ring| == SLOTS && h <= p <= h + SLOTS && s.nid == Slot(h) && s.ccs == Bit(Round(h))
    && (forall j :: h <= j < p && (s.phase.Cleared? ==> j > h) ==> s.ring[Slot(j)] == Mark(s.posted[j], Bit(Round(j))))
    && (forall j: nat :: p <= j < h + SLOTS ==> s.ring[Slot(j)] == ZERO)
    && (s.phase.Cleared? ==> s.ring[Slot(h)] == ZERO)
    && (!s.phase.Idle? ==> h < p && s.phase.event == Mark(s.posted[h], Bit(Round(h))))
    && (forall j :: 0 <= j < h ==> s.handled[j] == Mark(s.posted[j], Bit(Round(j))))
    && (forall j :: 0 <= j < p ==> Cycle(s.posted[j]) == 0 && Type(s.posted[j]) != 0)
  }

  function Empty(): Events {
    Events(seq(255, i => ZERO), 0, 1, Idle, [], [])
  }

  lemma EmptyGood()
    ensures Good(Empty())
  {
    forall j: nat ensures Slot(j) < SLOTS { NextSlot(j); }
  }

  lemma Typed(t: Trb, lap: nat)
    requires Cycle(t) == 0
    ensures Cycle(Mark(t, Bit(lap))) == Bit(lap) && Type(Mark(t, Bit(lap))) == Type(t)
    ensures Shows(Mark(t, Bit(lap)), t, Bit(lap))
  {
    var q := t.d3 / 2;
    assert t.d3 == 2 * q;
    SameHigh(q);
  }

  /** The two tests pass just when an event is pending: a slot that was left is zero, and so fails the cycle test while
      CCS is 1, and the test for a type while CCS is 0, where the cycle test would let it pass. */
  lemma TestsAreExact(s: Events)
    requires Good(s) && s.phase.Idle?
    ensures s.nid < |s.ring|
    ensures !(Type(s.ring[s.nid]) == 0 || Cycle(s.ring[s.nid]) != s.ccs) <==> |s.handled| < |s.posted|
    ensures |s.handled| == |s.posted| ==>
      Type(s.ring[s.nid]) == 0 && (Cycle(s.ring[s.nid]) == s.ccs <==> Round(|s.handled|) % 2 == 1)
  {
    var h := |s.handled|;
    NextSlot(h);
    if h < |s.posted| {
      Typed(s.posted[h], Round(h));
    } else {
      ZeroSlot();
    }
  }

  lemma ZeroSlot()
    ensures Type(ZERO) == 0 && Cycle(ZERO) == 0
  {
  }

  lemma PostKeeps(s: Events, event: Trb)
    requires Good(s) && Allowed(s, Post(event))
    ensures s.nid < SLOTS && Good(Do(s, Post(event)))
  {
    hide Slot, Round, Mark, Bit, Cycle, Type;
    var h, p := |s.handled|, |s.posted|;
    NextSlot(h);
    NextSlot(p);
    forall j: nat | h <= j < h + SLOTS && j != p ensures Slot(j) != Slot(p) && Slot(j) < SLOTS {
      if j < p { SameSlot(j, p); } else { SameSlot(p, j); }
      NextSlot(j);
    }
  }

  lemma CheckKeeps(s: Events)
    requires Good(s) && s.phase.Idle?
    ensures s.nid < SLOTS && Good(Do(s, Check))
  {
    NextSlot(|s.handled|);
    TestsAreExact(s);
    hide Slot, Round, Mark, Bit, Cycle, Type;
  }

  lemma ClearKeeps(s: Events)
    requires Good(s) && s.phase.Seen?
    ensures s.nid < SLOTS && Good(Do(s, Clear))
  {
    hide Slot, Round, Mark, Bit, Cycle, Type;
    var h := |s.handled|;
    NextSlot(h);
    forall j: nat | h < j < h + SLOTS ensures Slot(j) != Slot(h) && Slot(j) < SLOTS {
      SameSlot(h, j);
      NextSlot(j);
    }
  }

  lemma AdvanceKeeps(s: Events)
    requires Good(s) && s.phase.Cleared?
    ensures s.nid < SLOTS && Good(Do(s, Advance))
  {
    hide Slot, Round, Mark, Bit, Cycle, Type;
    var h := |s.handled|;
    NextSlot(h);
    Toggle(Round(h));
    SameSlot(h, h + SLOTS);
  }

  lemma MoveKeeps(s: Events, move: Move)
    requires Good(s) && Allowed(s, move)
    ensures s.nid < SLOTS && Good(Do(s, move))
  {
    hide Good, Slot, Round, Mark, Bit, Cycle, Type;
    match move {
      case Post(event) => PostKeeps(s, event);
      case Check => CheckKeeps(s);
      case Clear => ClearKeeps(s);
      case Advance => AdvanceKeeps(s);
    }
  }

  ghost predicate Moves(s: Events, moves: seq<Move>, t: Events)
    decreases |moves|
  {
    if moves == [] then t == s
    else Allowed(s, moves[0]) && |s.ring| == SLOTS && s.nid < SLOTS && Moves(Do(s, moves[0]), moves[1..], t)
  }

  /** Over any number of laps every event posted is handled once, in order. */
  lemma {:induction false} EachOnce(s: Events, moves: seq<Move>, t: Events)
    requires Good(s) && Moves(s, moves, t)
    ensures Good(t)
    decreases |moves|
  {
    if moves != [] {
      MoveKeeps(s, moves[0]);
      EachOnce(Do(s, moves[0]), moves[1..], t);
    }
  }

  /** From an empty ring on: the events handled are the first ones posted, word for word but for the cycle bit. */
  lemma {:induction false} OnceAndInOrder(moves: seq<Move>, t: Events)
    requires Moves(Empty(), moves, t)
    ensures |t.handled| <= |t.posted|
    ensures forall j :: 0 <= j < |t.handled| ==> Shows(t.handled[j], t.posted[j], Bit(Round(j)))
  {
    EmptyGood();
    EachOnce(Empty(), moves, t);
    forall j | 0 <= j < |t.handled| ensures Shows(t.handled[j], t.posted[j], Bit(Round(j))) {
      Typed(t.posted[j], Round(j));
    }
    hide Mark, Round, Bit, Cycle, Type;
  }

  // ---------------------------------------------------------------- completions

  /** The completion pointer of an event. */
  function Pointer(t: Trb): nat { t.d0 + 0x1_0000_0000 * t.d1 }

  /** xhci.c:366-370: the page, the ring and the index that a completion pointer stands for. */
  function PageOfPointer(ctp: nat): nat { ctp / 0x1000 * 0x1000 }

  function EventId(ctp: nat): nat { ctp % 0x1000 / 16 + 1 }

  /** A completion of the block in slot i of a ring sets EID to what NID was when just that block had been queued. */
  lemma PointerMeans(base: nat, i: nat)
    requires base % 0x1000 == 0 && i < 256
    ensures PageOfPointer(base + 16 * i) == base && EventId(base + 16 * i) == i + 1
  {
    var q := base / 0x1000;
    assert base == 0x1000 * q;
    PageParts(q, 16 * i);
  }

  /** The words in which a controller gives the address of a block. */
  lemma PointerWords(a: nat, d2: nat, d3: nat)
    ensures Pointer(Trb(a % 0x1_0000_0000, a / 0x1_0000_0000, d2, d3)) == a
  {
  }

  /** Events by bits 10 to 15 of their last word, whatever the other bits are: 32 and 33 complete a transfer or a
      command, 34 reports a port. */
  lemma EventTypes(d0: nat, d1: nat, d2: nat, low: nat, high: nat)
    requires low < 0x400
    ensures Completes(Trb(d0, d1, d2, 0x8000 + low + 0x1_0000 * high))
    ensures Completes(Trb(d0, d1, d2, 0x8400 + low + 0x1_0000 * high))
    ensures Type(Trb(d0, d1, d2, 0x8800 + low + 0x1_0000 * high)) == TRB_PORT_STATUS_CHANGE
    ensures !Completes(Trb(d0, d1, d2, 0x8800 + low + 0x1_0000 * high))
  {
    TypeBits(32, low, high);
    TypeBits(33, low, high);
    TypeBits(34, low, high);
  }

  lemma TypeBits(k: nat, low: nat, high: nat)
    requires k < 64 && low < 0x400
    ensures (0x400 * k + low + 0x1_0000 * high) / 1024 % 64 == k
  {
    Within1024(k + 64 * high, low);
  }

  lemma PageParts(q: nat, r: nat)
    requires r < 0x1000
    ensures (0x1000 * q + r) / 0x1000 == q && (0x1000 * q + r) % 0x1000 == r
  {
  }

  /** NID when m + 1 blocks have been queued, and EID when block m was the last one completed. */
  function IndexAfter(m: nat): nat { Pos(m) + 1 }

  /** `XHCIWaitCompletion` looks at EID and NID only: an older completion, of block c, is taken for that of the last
      block m just when a whole number of laps lies between them. */
  lemma StaleIff(c: nat, m: nat)
    requires c <= m
    ensures IndexAfter(c) == IndexAfter(m) <==> (m - c) % ITEMS == 0
  {
    var a, b := Lap(c), Lap(m);
    assert c == ITEMS * a + Pos(c) && m == ITEMS * b + Pos(m);
    if Pos(c) == Pos(m) {
      assert m - c == ITEMS * (b - a);
    }
    if (m - c) % ITEMS == 0 {
      var k := (m - c) / ITEMS;
      assert m == ITEMS * (a + k) + Pos(c);
      Rest(a + k, Pos(c));
    }
  }

  lemma Rest(l: nat, d: nat)
    requires d < ITEMS
    ensures Pos(ITEMS * l + d) == d
  {
  }

  /** EID after the completions cs, one after another. */
  ghost function EidAfter(eid: nat, cs: seq<nat>): nat {
    if cs == [] then eid else IndexAfter(cs[|cs| - 1])
  }

  /** A transfer of size blocks is queued behind n blocks, of which the last one known to be done is block d - 1, and so
      at most 253 are outstanding. However many completions of the others have come, the wait ends just when the last
      block is done. */
  lemma WaitIsRight(d: nat, n: nat, size: nat, eid: nat, cs: seq<nat>)
    requires d <= n && 1 <= size && n + size - d <= ITEMS - 1 && eid == (if d == 0 then 0 else IndexAfter(d - 1))
    requires forall i :: 0 <= i < |cs| ==> d <= cs[i] < n + size
    ensures EidAfter(eid, cs) == IndexAfter(n + size - 1) <==> cs != [] && cs[|cs| - 1] == n + size - 1
  {
    if cs != [] {
      StaleSmall(cs[|cs| - 1], n + size - 1);
    } else if d > 0 {
      StaleSmall(d - 1, n + size - 1);
    }
  }

  /** With one block more the ring still has room, but the wait ends before any of them is done. */
  lemma WaitEndsEarly(d: nat, n: nat, size: nat)
    requires 0 < d <= n && 1 <= size && n + size - d == ITEMS
    ensures EidAfter(IndexAfter(d - 1), []) == IndexAfter(n + size - 1)
  {
    StaleIff(d - 1, n + size - 1);
  }

  // ---------------------------------------------------------------- what the event ring says of a ring

  /** What the controller posts: the cycle bit is its own, and every event has a type. */
  predicate Event(t: Trb) {
    Cycle(t) == 0 && Type(t) != 0
  }

  /** The event is the completion of a block of the ring on that page. */
  predicate Concerns(t: Trb, base: nat) {
    Completes(t) && PageOfPointer(Pointer(t)) == base
  }

  /** One more than the place of the last event about the ring, or 0. */
  ghost function Latest(base: nat, events: seq<Trb>): (k: nat)
    ensures k <= |events| && (k > 0 ==> Concerns(events[k - 1], base))
    ensures forall j :: k <= j < |events| ==> !Concerns(events[j], base)
  {
    if events == [] then 0
    else if Concerns(events[|events| - 1], base) then |events|
    else
      assert forall j :: 0 <= j < |events| - 1 ==> events[..|events| - 1][j] == events[j];
      Latest(base, events[..|events| - 1])
  }

  lemma {:induction false} LatestIs(base: nat, events: seq<Trb>, k: nat)
    requires k <= |events| && (k > 0 ==> Concerns(events[k - 1], base)) && forall j :: k <= j < |events| ==>
      !Concerns(events[j], base)
    ensures Latest(base, events) == k
  {
    var l := Latest(base, events);
    if l < k { assert false; }
    if k < l { assert false; }
  }

  ghost function LastNews(base: nat, events: seq<Trb>): Trb {
    var k := Latest(base, events);
    if k == 0 then ZERO else events[k - 1]
  }

  /** The last news of the ring is that block m is done. */
  ghost predicate Tells(base: nat, events: seq<Trb>, m: nat) {
    Latest(base, events) > 0 && Pointer(LastNews(base, events)) == base + 16 * Pos(m)
  }

  /** The last block known to be done is block d - 1. */
  ghost predicate LastDone(base: nat, events: seq<Trb>, d: nat) {
    if d == 0 then Latest(base, events) == 0 else Tells(base, events, d - 1)
  }

  /** An event about the ring is the completion of one of its blocks lo up to hi. */
  ghost predicate About(t: Trb, base: nat, lo: nat, hi: nat) {
    Concerns(t, base) ==> exists c: nat :: lo <= c < hi && IsOf(t, base, c)
  }

  ghost predicate IsOf(t: Trb, base: nat, c: nat) {
    Pointer(t) == base + 16 * Pos(c)
  }

  ghost predicate AllAbout(events: seq<Trb>, base: nat, lo: nat, hi: nat) {
    forall t :: t in events ==> About(t, base, lo, hi)
  }

  /** EID and EVT as the last event about the ring leaves them. */
  ghost predicate Reflects(eid: nat, evt: Trb, base: nat, events: seq<Trb>) {
    if Latest(base, events) == 0 then eid == 0
    else eid == EventId(Pointer(LastNews(base, events))) && evt.(d3 := 0) == LastNews(base, events).(d3 := 0)
  }

  /** One event more. */
  lemma ReflectsMore(eid: nat, evt: Trb, eid0: nat, evt0: Trb, base: nat, posted: seq<Trb>, h: nat, t: Trb)
    requires h < |posted| && Reflects(eid0, evt0, base, posted[..h])
    requires Type(t) == Type(posted[h]) && t.(d3 := 0) == posted[h].(d3 := 0)
    requires if Concerns(t, base) then eid == EventId(Pointer(t)) && evt == t else eid == eid0 && evt == evt0
    ensures Reflects(eid, evt, base, posted[..h + 1])
  {
    assert Concerns(t, base) <==> Concerns(posted[h], base);
    var k := Latest(base, posted[..h]);
    LatestIs(base, posted[..h + 1], if Concerns(posted[h], base) then h + 1 else k);
  }

  lemma Pending(s: Events)
    requires Good(s) && s.phase.Idle?
    ensures s.nid < |s.ring| && |s.handled| <= |s.posted|
    ensures |s.handled| < |s.posted| ==>
              Type(s.ring[s.nid]) == Type(s.posted[|s.handled|])
                && s.ring[s.nid].(d3 := 0) == s.posted[|s.handled|].(d3 := 0)
  {
    var h := |s.handled|;
    NextSlot(h);
    if h < |s.posted| { Typed(s.posted[h], Round(h)); }
  }

  lemma Counted(s: Events)
    requires Good(s)
    ensures |s.handled| <= |s.posted| <= |s.handled| + SLOTS && s.nid < |s.ring| == SLOTS
  {
    NextSlot(|s.handled|);
  }

  lemma NextCount(s: Events)
    requires Good(s) && s.nid < |s.ring| && Next(s, Handled(s))
    ensures var t := Handled(s);
            Good(t) && t.posted == s.posted && |s.handled| < |s.posted| && |t.handled| == |s.handled| + 1
  {
  }

  lemma MayPost(s: Events, event: Trb)
    requires Good(s) && Event(event) && |s.posted| - |s.handled| < SLOTS
    ensures Allowed(s, Post(event))
  {
  }

  ghost function Flat(batches: seq<seq<Trb>>): seq<Trb> {
    if batches == [] then [] else Flat(batches[..|batches| - 1]) + batches[|batches| - 1]
  }

  /** There is room for every batch when all before it has been handled. */
  ghost predicate Fits(pending: int, batches: seq<seq<Trb>>) {
    forall i :: 0 <= i < |batches| ==>
      (if i == 0 then pending + |batches[i]| else |batches[i]|) <= SLOTS && forall e :: e in batches[i] ==> Event(e)
  }

  /** The events that the driver has heard of at look k since the wait began: none, or those that were pending and the
      first k batches. */
  ghost function SeenBy(s: Events, batches: seq<seq<Trb>>, k: nat): seq<Trb>
    requires k <= |batches| && |s.handled| <= |s.posted|
  {
    if k == 0 then [] else s.posted[|s.handled|..] + Flat(batches[..k])
  }

  /** Where the wait is after i batches. */
  ghost predicate After(s: Events, t: Events, batches: seq<seq<Trb>>, i: nat) {
    && i <= |batches| && |s.handled| <= |s.posted| && t.posted == s.posted + Flat(batches[..i])
    && if i == 0 then t == s else |t.handled| == |t.posted|
  }

  lemma AtFirst(s: Events, batches: seq<seq<Trb>>)
    requires Good(s)
    ensures After(s, s, batches, 0) && |s.handled| <= |s.posted|
  {
    assert batches[..0] == [];
  }

  lemma Heard(s: Events, t: Events, batches: seq<seq<Trb>>, i: nat)
    requires After(s, t, batches, i)
    ensures |t.handled| <= |t.posted| && t.posted[..|t.handled|] == s.posted[..|s.handled|] + SeenBy(s, batches, i)
  {
  }

  lemma BatchFits(s: Events, t: Events, batches: seq<seq<Trb>>, i: nat)
    requires After(s, t, batches, i) && i < |batches| && Fits(|s.posted| - |s.handled|, batches)
    ensures |t.posted| - |t.handled| + |batches[i]| <= SLOTS && forall e :: e in batches[i] ==> Event(e)
  {
  }

  lemma AfterBatch(s: Events, t: Events, u: Events, batches: seq<seq<Trb>>, i: nat)
    requires After(s, t, batches, i) && i < |batches| && u.posted == t.posted + batches[i] && u.handled == t.handled
    ensures u.posted == s.posted + Flat(batches[..i + 1])
    ensures |u.handled| <= |u.posted| && |t.handled| <= |t.posted| && u.posted[..|u.handled|] == t.posted[..|t.handled|]
  {
    assert batches[..i + 1][..i] == batches[..i];
  }

  lemma AfterInterrupt(s: Events, u: Events, t: Events, batches: seq<seq<Trb>>, i: nat)
    requires 0 < i <= |batches| && |s.handled| <= |s.posted| && u.posted == s.posted + Flat(batches[..i])
    requires t.posted == u.posted && |t.handled| == |t.posted|
    ensures After(s, t, batches, i) && t.posted[..|t.handled|] == t.posted
  {
  }

  /** A transfer of size blocks was queued behind n blocks; the last one known to be done is block d - 1, and at most
      253 are outstanding. All that is pending or will be posted about the ring are completions of blocks d to n + size
      - 1. */
  ghost predicate Waits(s: Events, batches: seq<seq<Trb>>, base: nat, d: nat, n: nat, size: nat) {
    && base % 0x1000 == 0 && d <= n && 1 <= size && n + size - d <= ITEMS - 1
    && |s.handled| <= |s.posted| && LastDone(base, s.posted[..|s.handled|], d)
    && AllAbout(s.posted[|s.handled|..] + Flat(batches), base, d, n + size)
    && Fits(|s.posted| - |s.handled|, batches)
  }

  lemma {:induction false} WaitFits(s: Events, batches: seq<seq<Trb>>, base: nat, d: nat, n: nat, size: nat)
    requires Waits(s, batches, base, d, n, size)
    ensures base % 0x1000 == 0 && d <= n && 1 <= size && n + size - d <= ITEMS - 1
    ensures |s.handled| <= |s.posted| && LastDone(base, s.posted[..|s.handled|], d)
    ensures AllAbout(s.posted[|s.handled|..] + Flat(batches), base, d, n + size)
    ensures Fits(|s.posted| - |s.handled|, batches)
  {
  }

  /** What a look at EID says. */
  lemma Look(base: nat, d: nat, n: nat, size: nat, s: Events, batches: seq<seq<Trb>>, i: nat, eid: nat, evt: Trb)
    requires i <= |batches| && Waits(s, batches, base, d, n, size)
    requires Reflects(eid, evt, base, s.posted[..|s.handled|] + SeenBy(s, batches, i))
    ensures eid == IndexAfter(n + size - 1) <==> Tells(base, SeenBy(s, batches, i), n + size - 1)
    ensures eid == IndexAfter(n + size - 1) ==> evt.d2 == LastNews(base, SeenBy(s, batches, i)).d2
  {
    WaitFits(s, batches, base, d, n, size);
    hide *;
    FlatPart(batches, i);
    SeenPart(s, batches, i, base, d, n + size);
    LookIsRight(base, d, n, size, s.posted[..|s.handled|], SeenBy(s, batches, i), eid, evt);
  }

  lemma {:induction false} FlatPart(batches: seq<seq<Trb>>, i: nat)
    requires i <= |batches|
    ensures forall t :: t in Flat(batches[..i]) ==> t in Flat(batches)
    decreases |batches| - i
  {
    if i < |batches| {
      FlatPart(batches, i + 1);
      assert batches[..i + 1][..i] == batches[..i];
    } else {
      assert batches[..i] == batches;
    }
  }

  lemma {:induction false} SeenPart(s: Events, batches: seq<seq<Trb>>, i: nat, base: nat, lo: nat, hi: nat)
    requires i <= |batches| && |s.handled| <= |s.posted|
      && AllAbout(s.posted[|s.handled|..] + Flat(batches), base, lo, hi)
    requires forall t :: t in Flat(batches[..i]) ==> t in Flat(batches)
    ensures AllAbout(SeenBy(s, batches, i), base, lo, hi)
  {
    hide About, Flat;
  }

  /** The news before the wait and the news during it. */
  lemma LookIsRight(base: nat, d: nat, n: nat, size: nat, past: seq<Trb>, news: seq<Trb>, eid: nat, evt: Trb)
    requires base % 0x1000 == 0 && d <= n && 1 <= size && n + size - d <= ITEMS - 1 && LastDone(base, past, d)
    requires AllAbout(news, base, d, n + size) && Reflects(eid, evt, base, past + news)
    ensures eid == IndexAfter(n + size - 1) <==> Tells(base, news, n + size - 1)
    ensures eid == IndexAfter(n + size - 1) ==> evt.d2 == LastNews(base, news).d2
  {
    hide Pos, Lap, EventId, PageOfPointer, Completes, Concerns, Latest, Pointer;
    var k := Latest(base, news);
    LatestIs(base, past + news, if k > 0 then |past| + k else Latest(base, past));
    var eid0 := if d == 0 then 0 else IndexAfter(d - 1);
    if k > 0 {
      assert LastNews(base, past + news) == news[k - 1] == LastNews(base, news);
      assert About(news[k - 1], base, d, n + size);
      var c: nat :| d <= c < n + size && IsOf(news[k - 1], base, c);
      NewsOf(news[k - 1], base, c, n + size - 1);
      WaitIsRight(d, n, size, eid0, [c]);
    } else {
      assert d > 0 ==> LastNews(base, past + news) == LastNews(base, past);
      if d > 0 { NewsOf(LastNews(base, past), base, d - 1, n + size - 1); }
      WaitIsRight(d, n, size, eid0, []);
    }
  }

  /** The pointer of a completion gives the index behind its block, and only blocks in the same slot share it. */
  lemma NewsOf(t: Trb, base: nat, c: nat, m: nat)
    requires base % 0x1000 == 0 && Pointer(t) == base + 16 * Pos(c)
    ensures EventId(Pointer(t)) == IndexAfter(c)
    ensures Pointer(t) == base + 16 * Pos(m) <==> IndexAfter(c) == IndexAfter(m)
    ensures IndexAfter(m) > 0
  {
    NextPos(c);
    PointerMeans(base, Pos(c));
  }

  lemma StaleSmall(c: nat, m: nat)
    requires c <= m < c + ITEMS
    ensures IndexAfter(c) == IndexAfter(m) <==> m == c
  {
    SamePos(c, m);
  }

  // ---------------------------------------------------------------- the driver's own functions

  /** EID and EVT of a transfer ring. */
  class Completion {
    var EID: nat
    var EVT: Trb

    constructor ()
      ensures EID == 0 && EVT == ZERO
    {
      EID, EVT := 0, ZERO;
    }
  }

  class EventRing {
    const RING: array<Trb>
    /** The rings by the address of their page, as the back pointers in their slots 255 give them. */
    const rings: map<nat, Completion>
    /** The physical address of RING. */
    const segment: nat
    var NID: nat
    var CCS: nat
    /** The event ring dequeue pointer: it tells the controller which slots have been left. */
    var ERD: nat
    /** The status and control words of the ports. */
    var ports: seq<bv32>

    constructor (rings: map<nat, Completion>, segment: nat, ports: seq<bv32>)
      ensures this.rings == rings && this.segment == segment && fresh(RING) && Is(Empty()) && Pointed()
      ensures this.ports == ports
    {
      this.rings, this.segment, ERD, this.ports := rings, segment, segment, ports;
      RING := new Trb[255](_ => ZERO);
      NID, CCS := 0, 1;
      new;
      assert RING[..] == Empty().ring;
    }

    ghost predicate Is(s: Events)
      reads this, RING
    {
      s.phase.Idle? && s.ring == RING[..] && s.nid == NID && s.ccs == CCS
    }

    /** ERD is the address of the slot at NID. */
    ghost predicate Pointed()
      reads this
    {
      ERD == segment + 16 * NID
    }

    /** The ring an event is about, if any. */
    ghost function Target(t: Trb): set<Completion> {
      if Completes(t) && PageOfPointer(Pointer(t)) in rings then {rings[PageOfPointer(Pointer(t))]} else {}
    }

    /** That ring holds the event, and in EID the index behind the block it is about. */
    ghost predicate Completed(t: Trb)
      reads Target(t)
    {
      forall ring :: ring in Target(t) ==> ring.EID == EventId(Pointer(t)) && ring.EVT == t
    }

    /** xhci.c:360-375. */
    method Complete(trb: Trb)
      modifies Target(trb)
      ensures Completed(trb)
    {
      var eventType := Type(trb);
      if eventType == TRB_TRANSFER || eventType == TRB_COMMAND_COMPLETE {
        var ctp := Pointer(trb);
        if PageOfPointer(ctp) in rings {
          var ring := rings[PageOfPointer(ctp)];
          ring.EVT := trb;
          ring.EID := EventId(ctp);
        }
      }
    }

    /** xhci.c:376-384: the change of a port is acknowledged. */
    method PortChange(trb: Trb)
      modifies this`ports
      ensures ports == PortsAfter(old(ports), trb)
    {
      if Type(trb) == TRB_PORT_STATUS_CHANGE {
        var id := trb.d0 / 0x100_0000 % 256;
        if 1 <= id <= |ports| {
          ports := ports[id - 1 := Acknowledged(ports[id - 1])];
        }
      }
    }

    /** `XHCIProcessEvent`: 1 when an event was pending, which has then been handled. */
    method XHCIProcessEvent(ghost s: Events) returns (code: nat)
      requires Is(s) && s.nid < |s.ring| && NID < RING.Length && Good(s)
      modifies this, RING, Target(RING[NID])
      ensures code == if |s.handled| < |s.posted| then 1 else 0
      ensures code == 0 ==> Is(s) && forall ring :: ring in Target(old(RING[NID])) ==> unchanged(ring)
      ensures code == 1 ==> Is(Handled(s)) && Next(s, Handled(s)) && Completed(old(RING[NID]))
      ensures if code == 1 then Pointed() else ERD == old(ERD)
      ensures ports == if code == 1 then PortsAfter(old(ports), old(RING[NID])) else old(ports)
    {
      hide Good, Slot, Round, Type, Cycle, Mark, Completes, EventId, PageOfPointer, Completed, Next, PortsAfter;
      TestsAreExact(s);
      var nid := NID;
      var trb := RING[nid];
      if Type(trb) == 0 || Cycle(trb) != CCS {
        return 0;
      }
      Complete(trb);
      PortChange(trb);
      HandledKeeps(s);
      RING[nid] := ZERO;
      nid := nid + 1;
      if nid == SLOTS {
        nid := 0;
        CCS := 1 - CCS % 2;
      }
      NID := nid;
      ERD := segment + 16 * NID;
      return 1;
    }

    /** Each ring has a page of its own. */
    ghost predicate Distinct() {
      forall a: nat, b: nat :: a in rings && b in rings && a != b ==> rings[a] != rings[b]
    }

    /** EID and EVT of every ring are those of the last event about it. */
    ghost predicate Reflected(events: seq<Trb>)
      reads rings.Values
    {
      forall base: nat :: base in rings ==> Reflects(rings[base].EID, rings[base].EVT, base, events)
    }

    lemma ReflectedAt(base: nat, events: seq<Trb>)
      requires base in rings && Reflected(events)
      ensures Reflects(rings[base].EID, rings[base].EVT, base, events)
    {
    }

    /** One event more is reflected. */
    method HandleOne(ghost s: Events) returns (code: nat)
      requires Is(s) && Good(s) && Distinct() && Reflected(s.posted[..|s.handled|])
      modifies this, RING, rings.Values
      ensures code <= 1 && (if code == 1 then Pointed() else ERD == old(ERD) && NID == old(NID))
      ensures code == 0 ==> |s.handled| == |s.posted| && Is(s) && Reflected(s.posted)
      ensures code != 0 ==>
        s.nid < |s.ring| && Is(Handled(s)) && Next(s, Handled(s))
        && Reflected(Handled(s).posted[..|Handled(s).handled|])
    {
      hide *;
      Opens(s);
      ghost var h, t := |s.handled|, RING[NID];
      InRings();
      ReflectedNow(s.posted[..h]);
      TargetInRings(t);
      SameIndex(s);
      code := XHCIProcessEvent(s);
      if code == 0 {
        SameIndex(s);
        assert s.posted[..h] == s.posted;
      } else {
        NextCount(s);
        ReflectedNow(s.posted[..h + 1]);
        forall base: nat | base in rings ensures Reflects(rings[base].EID, rings[base].EVT, base, s.posted[..h + 1]) {
          TargetIs(t, base);
          ReflectsMore(rings[base].EID, rings[base].EVT, old(rings[base].EID), old(rings[base].EVT), base, s.posted, h,
            t);
        }
      }
    }

    lemma Opens(s: Events)
      requires Is(s) && Good(s)
      ensures s.nid < |s.ring| && NID < RING.Length && |s.handled| <= |s.posted|
      ensures |s.handled| < |s.posted| ==>
                Type(RING[NID]) == Type(s.posted[|s.handled|]) && RING[NID].(d3 := 0) == s.posted[|s.handled|].(d3 := 0)
    {
      Pending(s);
    }

    lemma ReflectedNow(events: seq<Trb>)
      ensures Reflected(events) <==>
        forall base: nat :: base in rings ==> Reflects(rings[base].EID, rings[base].EVT, base, events)
    {
    }

    lemma TargetInRings(t: Trb)
      ensures Target(t) <= rings.Values
    {
    }

    lemma InRings()
      ensures forall base: nat :: base in rings ==> rings[base] in rings.Values
    {
    }

    /** An event changes the ring it is about, and no other. */
    lemma TargetIs(t: Trb, base: nat)
      requires Distinct() && base in rings
      ensures Concerns(t, base) && Completed(t) ==> rings[base].EID == EventId(Pointer(t)) && rings[base].EVT == t
      ensures !Concerns(t, base) ==> rings[base] !in Target(t)
    {
      hide PageOfPointer, Type, EventId;
    }

    /** `InterruptXHCI`: events are handled until none is pending. */
    method InterruptXHCI(ghost s: Events) returns (ghost t: Events)
      requires Is(s) && Good(s) && Distinct() && Reflected(s.posted[..|s.handled|])
      modifies this, RING, rings.Values
      ensures Is(t) && Good(t) && t.posted == s.posted && |t.handled| == |t.posted| && Reflected(t.posted)
      ensures segment % 16 == 0 && old(Pointed()) ==> Pointed()
    {
      hide *;
      Counted(s);
      IsPointed();
      t := s;
      var more := 1;
      while more != 0
        invariant Is(t) && Good(t) && t.posted == s.posted && more <= 1 && |t.handled| <= |t.posted|
        invariant old(Pointed()) ==> Pointed()
        invariant if more == 0 then |t.handled| == |t.posted| && Reflected(t.posted)
          else Reflected(t.posted[..|t.handled|])
        decreases |t.posted| - |t.handled| + more
      {
        ghost var u := t;
        IsPointed();
        more := HandleOne(t);
        IsPointed();
        if more != 0 {
          t := Handled(t);
          NextCount(u);
        }
      }
      IsPointed();
      SixteenWhole(segment, NID);
      WhatIs(t);
      ERD := ERD - ERD % 8;
      WhatIs(t);
      IsPointed();
    }

    lemma IsPointed()
      ensures Pointed() <==> ERD == segment + 16 * NID
    {
    }

    lemma WhatIs(s: Events)
      ensures Is(s) <==> s.phase.Idle? && s.ring == RING[..] && s.nid == NID && s.ccs == CCS
    {
    }

    lemma SameIndex(s: Events)
      requires Is(s)
      ensures s.nid == NID
    {
    }

    /** The controller posts an event; p counts those it has posted. */
    method Deliver(event: Trb, p: nat, ghost s: Events)
      requires Is(s) && Good(s) && p == |s.posted| && Allowed(s, Post(event))
      modifies RING
      ensures s.nid < |s.ring| == SLOTS && Is(Do(s, Post(event))) && Good(Do(s, Post(event)))
    {
      NextSlot(p);
      MoveKeeps(s, Post(event));
      RING[Slot(p)] := Mark(event, Bit(Round(p)));
    }

    method DeliverAll(batch: seq<Trb>, p: nat, ghost s: Events) returns (ghost t: Events)
      requires Is(s) && Good(s) && p == |s.posted| && p - |s.handled| + |batch| <= SLOTS && forall e :: e in batch ==>
        Event(e)
      modifies RING
      ensures Is(t) && Good(t) && t.posted == s.posted + batch && t.handled == s.handled
    {
      hide Good, Slot, Round, Mark, Type, Cycle;
      t := s;
      for i := 0 to |batch|
        invariant Is(t) && Good(t) && t.posted == s.posted + batch[..i] && t.handled == s.handled
      {
        MayPost(t, batch[i]);
        Deliver(batch[i], p + i, t);
        t := Do(t, Post(batch[i]));
      }
    }

    /** What holds at look i of a wait. */
    ghost predicate At(s: Events, t: Events, batches: seq<seq<Trb>>, i: nat)
      reads this, RING, rings.Values
    {
      Is(t) && Good(t) && After(s, t, batches, i) && |t.handled| <= |t.posted| && Distinct()
        && Reflected(t.posted[..|t.handled|])
    }

    lemma Starts(s: Events, batches: seq<seq<Trb>>)
      requires Is(s) && Good(s) && Distinct() && Reflected(s.posted[..|s.handled|])
      ensures At(s, s, batches, 0)
    {
      hide Good, Reflected, Distinct;
      AtFirst(s, batches);
    }

    /** Between two looks the controller posts a batch of events, and the interrupt handler handles all that are
        pending. */
    method NextLook(batch: seq<Trb>, q: nat, batches: seq<seq<Trb>>, i: nat, ghost s: Events, ghost t: Events)
        returns (ghost u: Events)
      requires i < |batches| && batch == batches[i] && At(s, t, batches, i) && q == |t.posted|
      requires |s.handled| <= |s.posted| && Fits(|s.posted| - |s.handled|, batches)
      modifies this, RING, rings.Values
      ensures At(s, u, batches, i + 1) && |u.posted| == q + |batch|
    {
      hide Good, After, Reflected, Distinct, Fits, Is, Flat;
      BatchFits(s, t, batches, i);
      ghost var v := DeliverAll(batch, q, t);
      AfterBatch(s, t, v, batches, i);
      u := InterruptXHCI(v);
      AfterInterrupt(s, v, u, batches, i + 1);
    }

    lemma AtMeans(s: Events, t: Events, batches: seq<seq<Trb>>, i: nat)
      requires At(s, t, batches, i)
      ensures After(s, t, batches, i) && i <= |batches| && |t.handled| <= |t.posted|
        && Reflected(t.posted[..|t.handled|])
    {
    }

    /** What the wait sees in EID and EVT of its ring. */
    lemma Sees(base: nat, d: nat, n: nat, size: nat, s: Events, t: Events, batches: seq<seq<Trb>>, i: nat)
      requires base in rings && At(s, t, batches, i) && Waits(s, batches, base, d, n, size)
      ensures rings[base].EID == IndexAfter(n + size - 1) <==> Tells(base, SeenBy(s, batches, i), n + size - 1)
      ensures rings[base].EID == IndexAfter(n + size - 1) ==>
        rings[base].EVT.d2 == LastNews(base, SeenBy(s, batches, i)).d2
    {
      AtMeans(s, t, batches, i);
      hide *;
      Heard(s, t, batches, i);
      ReflectedAt(base, t.posted[..|t.handled|]);
      Look(base, d, n, size, s, batches, i, rings[base].EID, rings[base].EVT);
    }

    /** `XHCIWaitCompletion`: the processor sleeps until EID is NID. It returns with the completion code of the last
        block of the transfer, at the first look at which that block was the last one of the ring reported done. */
    method XHCIWaitCompletion(base: nat, nid: nat, p: nat, batches: seq<seq<Trb>>, ghost d: nat, ghost n: nat,
        ghost size: nat,
        ghost s: Events) returns (done: bool, code: nat, i: nat)
      requires Is(s) && Good(s) && Distinct() && |s.handled| <= |s.posted| && Reflected(s.posted[..|s.handled|])
        && p == |s.posted|
      requires Waits(s, batches, base, d, n, size) && base in rings && nid == IndexAfter(n + size - 1)
      modifies this, RING, rings.Values
      ensures i <= |batches| && (done <==> Tells(base, SeenBy(s, batches, i), n + size - 1))
        && (!done ==> i == |batches|)
      ensures forall k: nat :: k < i ==> !Tells(base, SeenBy(s, batches, k), n + size - 1)
      ensures done ==> code == LastNews(base, SeenBy(s, batches, i)).d2 / 0x100_0000
    {
      hide *;
      var ring := rings[base];
      ghost var t, m := s, n + size - 1;
      var q := p;
      i := 0;
      Starts(s, batches);
      WaitFits(s, batches, base, d, n, size);
      Sees(base, d, n, size, s, t, batches, 0);
      while ring.EID != nid
        invariant i <= |batches| && At(s, t, batches, i) && q == |t.posted|
        invariant ring.EID == nid <==> Tells(base, SeenBy(s, batches, i), m)
        invariant ring.EID == nid ==> ring.EVT.d2 == LastNews(base, SeenBy(s, batches, i)).d2
        invariant forall k: nat :: k < i ==> !Tells(base, SeenBy(s, batches, k), m)
        decreases |batches| - i
      {
        if i == |batches| {
          return false, 0, i;
        }
        t := NextLook(batches[i], q, batches, i, s, t);
        q := q + |batches[i]|;
        i := i + 1;
        Sees(base, d, n, size, s, t, batches, i);
      }
      done, code := true, ring.EVT.d2 / 0x100_0000;
    }
  }

  /** What is written back to a port: the change bits as they are read, which clears them, but neither the enabled bit
      nor the reset bit, and link state 1. */
  function Acknowledged(psc: bv32): (pcl: bv32)
    ensures pcl & 0x12 == 0 && pcl & 0x1E0 == 0x20 && pcl & 0xFFFF_FE0D == psc & 0xFFFF_FE0D
  {
    (psc & !0x12 & !0x1E0) | 0x20
  }

  /** A port status change acknowledges the port it names, and nothing else does. */
  function PortsAfter(ports: seq<bv32>, t: Trb): (r: seq<bv32>)
    ensures |r| == |ports|
    ensures forall i :: 0 <= i < |ports| ==>
      r[i] == if Type(t) == TRB_PORT_STATUS_CHANGE && t.d0 / 0x100_0000 % 256 == i + 1 then Acknowledged(ports[i])
              else ports[i]
  {
    var id := t.d0 / 0x100_0000 % 256;
    if Type(t) == TRB_PORT_STATUS_CHANGE && 1 <= id <= |ports| then ports[id - 1 := Acknowledged(ports[id - 1])]
      else ports
  }

  lemma SixteenWhole(a: nat, n: nat)
    ensures a % 16 == 0 ==> (a + 16 * n) % 8 == 0
  {
    if a % 16 == 0 {
      var q := a / 16;
      assert a + 16 * n == 8 * (2 * (q + n));
      Eights(2 * (q + n));
    }
  }

  lemma Eights(q: nat)
    ensures 8 * q % 8 == 0
  {
  }

  predicate Completes(t: Trb) {
    Type(t) == TRB_TRANSFER || Type(t) == TRB_COMMAND_COMPLETE
  }

  /** One event handled: the slot is zero, the index has moved on, and CCS toggles at the end of the segment. */
  ghost function Handled(s: Events): Events
    requires s.nid < |s.ring|
  {
    s.(ring := s.ring[s.nid := ZERO], nid := if s.nid + 1 == SLOTS then 0 else s.nid + 1,
       ccs := if s.nid + 1 == SLOTS then 1 - s.ccs % 2 else s.ccs, handled := s.handled + [s.ring[s.nid]])
  }

  /** The next event posted has been handled, and nothing else. */
  ghost predicate Next(s: Events, t: Events) {
    && Good(t) && t.posted == s.posted && |s.handled| < |s.posted|
    && t.handled == s.handled + [Mark(s.posted[|s.handled|], Bit(Round(|s.handled|)))]
  }

  lemma HandledKeeps(s: Events)
    requires Good(s) && s.phase.Idle? && |s.handled| < |s.posted|
    ensures s.nid < |s.ring| && Next(s, Handled(s))
  {
    TestsAreExact(s);
    MoveKeeps(s, Check);
    var a := Do(s, Check);
    MoveKeeps(a, Clear);
    MoveKeeps(Do(a, Clear), Advance);
    assert Handled(s) == Do(Do(a, Clear), Advance);
  }
}
