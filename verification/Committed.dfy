/** Are the mapped pages of dynamic space committed ones? page.c:56-58 looks for the last committed block that starts at
    or below the fault, but not at where it ends. */
module CommittedPages {
  import opened Intervals
  import opened Physical
  import opened PageWalk
  import opened Paging
  import opened Regions
  import opened Frames
  import opened Release
  import opened Uncommit
  import opened Space
  import opened VirtualMemories
  import opened PageFaults
  import opened Requests

  ghost predicate InDynamic(v: nat) {
    InWindow(v) && v < DYNAMIC_HI
  }

  /** In dynamic space only committed pages are mapped. */
  ghost predicate MappedCommitted(s: State, root: nat) {
    forall v: nat :: InDynamic(v) && Look(s.m, root, v).Some? ==> Has(s.c, v)
  }

  /** Bit 0 of a protection allows writing, bit 1 running. */
  predicate Allows(V: nat, p: Page) {
    (p.write <==> V % 2 == 1) && (p.exec <==> V / 2 % 2 == 1)
  }

  /** A mapped page that is committed has the rights that it was committed with. */
  ghost predicate RightsCommitted(s: State, root: nat) {
    forall v: nat :: InDynamic(v) && Look(s.m, root, v).Some? && At(s.c, v).Some? ==>
      Allows(At(s.c, v).value, Look(s.m, root, v).value)
  }

  ghost predicate MappedAsCommitted(s: State, root: nat) {
    MappedCommitted(s, root) && RightsCommitted(s, root)
  }

  // ---------------------------------------------------------------- allocations

  lemma CommittedRange(c: seq<Entry>, lo: nat, hi: nat, v: nat)
    requires InWindow(v) && lo <= v < hi && Has(c, v)
    ensures v in Committed(c, lo, hi) && v in PagesFrom(lo, hi)
  {
  }

  /** What a granted request leaves of a page. */
  lemma {:induction false} AllocatedAt(s: State, t: State, root: nat, lo: nat, hi: nat, option: nat, protect: nat,
      v: nat)
    requires Allocated(s, t, root, lo, hi, option, protect) && InWindow(v)
    ensures Look(t.m, root, v) == if v in Dropped(s.c, lo, hi, option) then None else Look(s.m, root, v)
    ensures v !in Dropped(s.c, lo, hi, option) && Has(s.c, v) ==> At(t.c, v) == At(s.c, v)
    ensures Has(t.c, v) <==> At(t.c, v).Some?
  {
    WindowBase(v);
    AtHas(t.c, v);
    hide Look, At, Has, Base, InWindow, Committed, PagesFrom, Asks;
    if lo <= v < hi && Has(s.c, v) { CommittedRange(s.c, lo, hi, v); }
  }

  /** Reserving, committing, uncommitting and freeing keep it so, and keep the rights right. */
  lemma AllocatedKeeps(s: State, t: State, root: nat, lo: nat, hi: nat, option: nat, protect: nat)
    requires Allocated(s, t, root, lo, hi, option, protect) && MappedCommitted(s, root)
    ensures MappedCommitted(t, root)
    ensures RightsCommitted(s, root) ==> RightsCommitted(t, root)
  {
    hide Look, At, Has, InWindow, Allocated, Dropped;
    forall v: nat | InDynamic(v) && Look(t.m, root, v).Some?
      ensures Look(t.m, root, v) == Look(s.m, root, v) && Has(t.c, v) && At(t.c, v) == At(s.c, v)
    {
      AllocatedAt(s, t, root, lo, hi, option, protect, v);
      AtHas(s.c, v);
    }
  }

  /** Without it, what is mapped but not committed stays mapped, with its rights, when the range is freed or committed:
      only a request that commits the range and takes it back reaches such pages. */
  lemma StaleStays(s: State, t: State, root: nat, lo: nat, hi: nat, option: nat, protect: nat, v: nat)
    requires Allocated(s, t, root, lo, hi, option, protect) && InWindow(v) && !Has(s.c, v)
    ensures Look(t.m, root, v) ==
            if lo <= v < hi && Asks(option, MEM_COMMIT) && (Asks(option, MEM_UNCOMMIT) || Asks(option, MEM_FREE))
              then None
            else Look(s.m, root, v)
  {
    AllocatedAt(s, t, root, lo, hi, option, protect, v);
    hide Look, Has;
  }

  // ---------------------------------------------------------------- page faults

  /** A block of whole pages holds a page or does not. */
  lemma HoldsPage(e: Entry, v: nat)
    requires e.A % 0x1000 == 0 && e.S % 0x1000 == 0 && WINDOW_LO <= v < WINDOW_HI
    ensures e.Covers(Base(v)) <==> e.Covers(v)
  {
    BaseOfWindow(v);
    PageStart(v);
    SumAligned(e.A, e.S);
    hide Base;
    SamePageSide(v, v - v % 0x1000, e.A);
    SamePageSide(v, v - v % 0x1000, e.A + e.S);
  }

  lemma PageStart(v: nat)
    ensures (v - v % 0x1000) / 0x1000 == v / 0x1000
  {
    var q := v / 0x1000;
    assert v - v % 0x1000 == 0x1000 * q;
  }

  lemma CommittedPage(c: seq<Entry>, v: nat)
    requires CommitMap(c) && WINDOW_LO <= v < WINDOW_HI
    ensures Has(c, Base(v)) <==> Has(c, v)
  {
    hide Base;
    forall i | 0 <= i < |c| ensures c[i].Covers(Base(v)) <==> c[i].Covers(v) {
      HoldsPage(c[i], v);
    }
  }

  /** Of an address that is committed, the block that the handler finds is the one it lies in; of any other it is not:
      that is the test of the block's end. */
  lemma {:induction false} ProtectionAt(c: seq<Entry>, v: nat)
    requires CommitMap(c)
    ensures var k := Rank(c, v + 1); Has(c, v) <==> k > 0 && v < Bound(c[k - 1])
    ensures Has(c, v) ==> At(c, v) == Some(Protection(c, v))
  {
    CommitMapStrict(c);
    var k := Rank(c, v + 1);
    if Has(c, v) {
      var i :| 0 <= i < |c| && c[i].Covers(v);
      assert i < k && c[k - 1].A <= v < Bound(c[i]);
      assert i == k - 1;
      CoveredAt(c, i, v);
    } else if k > 0 {
      assert !c[k - 1].Covers(v);
    }
  }

  lemma {:induction false} CoveredAt(c: seq<Entry>, i: nat, x: int)
    requires Tiled(c) && i < |c| && c[i].Covers(x)
    ensures At(c, x) == Some(c[i].V)
    decreases |c|
  {
    if i > 0 {
      TailTiled(c);
      assert !c[0].Covers(x);
      CoveredAt(c[1..], i - 1, x);
    }
  }

  /** What a page fault in dynamic space does to the pages there. */
  lemma BackedAt(s: State, t: State, root: nat, v: nat, options: nat, w: nat)
    requires Backed(s, t, root, v, options) && WINDOW_LO <= v < WINDOW_HI && InWindow(w)
    ensures InWindow(Base(v))
    ensures if w == Base(v) then Look(t.m, root, w).Some?
      && exists f: nat :: Look(t.m, root, w) == Some(Small(f, options))
            else Look(t.m, root, w) == Look(s.m, root, w)
  {
    var f: nat :| Backs(s, t, root, v, options, f);
    MapsWindow(s.m, t.m, root, v, f, options);
    hide Look, InWindow, Base;
  }

  /** With the rights of its protection. */
  lemma SmallAllows(f: nat, V: nat)
    ensures Allows(V, Small(f, 2 * V + 1))
  {
    HalfOf(V, 1);
    var q := V / 2;
    assert (2 * V + 1) / 4 == q;
  }

  /** A fault in dynamic space that returns keeps it so just when its address is committed. */
  lemma FaultKeepsIff(s: State, t: State, root: nat, v: nat)
    requires Sound(s, root) && Resumes(s, t, root, v) && WINDOW_LO <= v < DYNAMIC_HI && MappedCommitted(s, root)
    ensures MappedCommitted(t, root) <==> Has(s.c, v)
    ensures RightsCommitted(s, root) && Has(s.c, v) ==> RightsCommitted(t, root)
  {
    hide *;
    var options := 2 * Protection(s.c, v) + 1;
    DynamicFault(s, t, root, v);
    CommittedPage(s.c, v);
    SameProtection(s.c, v);
    forall w: nat | InDynamic(w) ensures w != Base(v) ==> Look(t.m, root, w) == Look(s.m, root, w) {
      IsDynamic(w);
      BackedAt(s, t, root, v, options, w);
    }
    IsDynamic(Base(v));
    BackedAt(s, t, root, v, options, Base(v));
    AtHas(s.c, Base(v));
    var f: nat :| Look(t.m, root, Base(v)) == Some(Small(f, options));
    SmallAllows(f, Protection(s.c, v));
    OnePageMore(s, t, root, Base(v));
  }

  lemma IsDynamic(v: nat)
    ensures InDynamic(v) <==> InWindow(v) && v < DYNAMIC_HI
  {
  }

  lemma {:induction false} OnePageMore(s: State, t: State, root: nat, b: nat)
    requires InDynamic(b) && t.c == s.c && Look(t.m, root, b).Some? && MappedCommitted(s, root)
    requires forall w: nat :: InDynamic(w) && w != b ==> Look(t.m, root, w) == Look(s.m, root, w)
    ensures MappedCommitted(t, root) <==> Has(s.c, b)
    ensures RightsCommitted(s, root) && (At(s.c, b).Some? ==> Allows(At(s.c, b).value, Look(t.m, root, b).value)) ==>
      RightsCommitted(t, root)
  {
    hide Look, Has, At, InDynamic, Allows;
  }

  lemma DynamicFault(s: State, t: State, root: nat, v: nat)
    requires Sound(s, root) && Resumes(s, t, root, v) && WINDOW_LO <= v < DYNAMIC_HI
    ensures WINDOW_LO <= v < DYNAMIC_HI < WINDOW_HI
    ensures Backed(s, t, root, v, 2 * Protection(s.c, v) + 1) && t.c == s.c && CommitMap(s.c)
    ensures WINDOW_LO <= Base(v) < DYNAMIC_HI && InWindow(Base(v))
  {
    BaseOfWindow(v);
  }

  lemma {:induction false} SameProtection(c: seq<Entry>, v: nat)
    requires CommitMap(c) && WINDOW_LO <= v < WINDOW_HI
    ensures Has(c, v) ==> At(c, Base(v)) == At(c, v) == Some(Protection(c, v))
  {
    if !Has(c, v) {
      return;
    }
    ProtectionAt(c, v);
    hide Base, Protection, At, Rank;
    var i :| 0 <= i < |c| && c[i].Covers(v);
    HoldsPage(c[i], v);
    CoveredAt(c, i, v);
    CoveredAt(c, i, Base(v));
  }

  /** Faults in the direct map and in the stacks leave dynamic space alone. */
  lemma OtherFault(s: State, t: State, root: nat, v: nat)
    requires Resumes(s, t, root, v) && !(WINDOW_LO <= v < DYNAMIC_HI)
    ensures t.c == s.c && forall w: nat :: InDynamic(w) ==> Look(t.m, root, w) == Look(s.m, root, w)
  {
    if v < WINDOW_LO {
      DirectElsewhere(s, t, root, v);
    } else {
      StackFault(s, t, root, v);
      hide *;
      forall w: nat | InDynamic(w) ensures Look(t.m, root, w) == Look(s.m, root, w) {
        IsDynamic(w);
        BackedAt(s, t, root, v, 7, w);
      }
    }
  }

  lemma DirectElsewhere(s: State, t: State, root: nat, v: nat)
    requires Resumes(s, t, root, v) && v < WINDOW_LO
    ensures forall w: nat :: InDynamic(w) ==> Look(t.m, root, w) == Look(s.m, root, w)
  {
    hide Look;
    if Open(s.m, root, v, 1) { StaticElsewhere(s.m, t.m, root, v, v % 0x8000_0000_0000, 7); }
  }

  lemma StackFault(s: State, t: State, root: nat, v: nat)
    requires Resumes(s, t, root, v) && !(WINDOW_LO <= v < DYNAMIC_HI) && v >= WINDOW_LO
    ensures Backed(s, t, root, v, 7) && Base(v) >= DYNAMIC_HI && WINDOW_LO <= v < WINDOW_HI
  {
    BaseOfWindow(v);
    PageSide(v);
  }

  /** The page of a stack that a fault has mapped may be written to and run. */
  lemma StackPage(s: State, t: State, root: nat, v: nat)
    requires Resumes(s, t, root, v) && v >= 0xFFFF_E000_0000_0000
    ensures var p := Look(t.m, root, Base(v)); p.Some? && p.value.size == 0 && p.value.write && p.value.exec
  {
    hide *;
    InStacks(s, t, root, v);
    BackedAt(s, t, root, v, 7, Base(v));
    var f: nat :| Look(t.m, root, Base(v)) == Some(Small(f, 7));
    AllRights(f);
  }

  lemma InStacks(s: State, t: State, root: nat, v: nat)
    requires Resumes(s, t, root, v) && v >= 0xFFFF_E000_0000_0000
    ensures Backed(s, t, root, v, 7) && WINDOW_LO <= v < WINDOW_HI && InWindow(Base(v))
  {
    StackFault(s, t, root, v);
    BaseOfWindow(v);
  }

  lemma AllRights(f: nat)
    ensures Small(f, 7) == Page(f, 0, true, true)
  {
  }

  lemma PageSide(v: nat)
    ensures v >= DYNAMIC_HI ==> v - v % 0x1000 >= DYNAMIC_HI
  {
    var q := v / 0x1000;
    assert v - v % 0x1000 == 0x1000 * q && (v >= DYNAMIC_HI ==> q >= 0xF_FFFE_0000_0000);
  }

  // ---------------------------------------------------------------- a fault behind a block

  /** The first page of dynamic space is reserved and committed, the rest is free, and nothing is mapped. */
  ghost function OnePageCommitted(): State {
    State([Entry(WINDOW_LO + 0x1000, SPACE_HI - WINDOW_LO - 0x1000, 0)], [Entry(WINDOW_LO, 0x1000, 0)],
      [Entry(WINDOW_LO, 0x1000, 3)],
          map[0x1000 := Zeros()], [Entry(0x10_0000, 0x10_0000, 0)])
  }

  lemma OnePageSound()
    ensures var s := OnePageCommitted();
            && Sound(s, 0x1000) && MappedAsCommitted(s, 0x1000) && TableTree(s.m, map[0x1000 := Place(0, 0, 0)], 0x1000)
            && (forall x :: Has(s.c, x) <==> WINDOW_LO <= x < WINDOW_LO + 0x1000)
            && (forall x :: Has(s.r, x) <==> WINDOW_LO <= x < WINDOW_LO + 0x1000)
  {
    var s := OnePageCommitted();
    forall x
      ensures (Has(s.f, x) <==> WINDOW_LO + 0x1000 <= x < SPACE_HI)
        && (Has(s.r, x) <==> WINDOW_LO <= x < WINDOW_LO + 0x1000)
      ensures (Has(s.c, x) <==> WINDOW_LO <= x < WINDOW_LO + 0x1000)
        && (Has(s.frames, x) <==> 0x10_0000 <= x < 0x20_0000)
    {
      HasOne(s.f[0], x);
      HasOne(s.r[0], x);
      HasOne(s.c[0], x);
      HasOne(s.frames[0], x);
    }
    forall x: int, y: int | x / 0x1000 == y / 0x1000 && Has(s.f, x) ensures Has(s.f, y) {
      SamePageSide(x, y, WINDOW_LO + 0x1000);
      SamePageSide(x, y, SPACE_HI);
    }
    hide Look;
    forall v: nat ensures Look(s.m, 0x1000, v) == None {
      NothingMappedYet(v);
    }
  }

  /** Four frames are free, and more are not needed. */
  lemma EnoughFrames(v: nat)
    requires v >= WINDOW_LO
    ensures Enough(OnePageCommitted(), 0x1000, v)
  {
    var s := OnePageCommitted();
    OnePageSound();
    AtMostThree(s.m, 0x1000, v, 0);
    forall y: nat | y == 0x10_0000 || y == 0x10_1000 || y == 0x10_2000 || y == 0x10_3000
      ensures y in FreePages(s.frames) {
      FreeStretch(y);
    }
    Subset({0x10_0000, 0x10_1000, 0x10_2000, 0x10_3000}, FreePages(s.frames));
  }

  lemma FreeStretch(y: nat)
    requires 0x10_0000 <= y <= 0x1F_F000 && y % 0x1000 == 0
    ensures y in FreePages(OnePageCommitted().frames)
  {
    var es := OnePageCommitted().frames;
    forall x | y <= x < y + 0x1000 ensures Has(es, x) {
      HasOne(es[0], x);
    }
  }

  lemma {:induction false} Subset(a: set<nat>, b: set<nat>)
    requires a <= b
    ensures |a| <= |b|
    decreases |a|
  {
    if x :| x in a {
      Subset(a - {x}, b - {x});
    }
  }

  /** A fault on the page behind it, which is not even reserved, is not fatal, and there are frames enough: the handler
      returns, and that page is mapped. */
  lemma FaultBehindBlock()
    ensures var s, v := OnePageCommitted(), WINDOW_LO + 0x1000;
            && Sound(s, 0x1000) && MappedAsCommitted(s, 0x1000) && Look(s.m, 0x1000, v) == None
            && !Has(s.r, v) && !Has(s.c, v) && !Fatal(s.c, 0, v) && Enough(s, 0x1000, v)
            && forall t :: Resumes(s, t, 0x1000, v) ==> !MappedCommitted(t, 0x1000)
  {
    var s, v := OnePageCommitted(), WINDOW_LO + 0x1000;
    OnePageSound();
    NothingMappedYet(v);
    assert s.c[0].A <= v && !Fatal(s.c, 0, v);
    EnoughFrames(v);
    hide Look, Resumes, MappedCommitted, RightsCommitted, Sound, Has, Enough;
    forall t | Resumes(s, t, 0x1000, v) ensures !MappedCommitted(t, 0x1000) {
      FaultKeepsIff(s, t, 0x1000, v);
    }
  }

  // ---------------------------------------------------------------- whole runs

  /** A page fault in dynamic space comes from a committed address. */
  ghost predicate Hits(s: State, root: nat, e: Event) {
    Admissible(s, root, e) && e.Fault? && WINDOW_LO <= e.CR2 < DYNAMIC_HI ==> Has(s.c, e.CR2)
  }

  lemma PassedBy(s: State, t: State, root: nat, e: Event)
    requires Next(s, t, root, e) && !Admissible(s, root, e)
    ensures t == s
  {
  }

  lemma Resumed(s: State, t: State, root: nat, e: Event)
    requires Next(s, t, root, e) && Admissible(s, root, e) && e.Fault?
    ensures Resumes(s, t, root, e.CR2)
  {
  }

  /** A request that changes anything does what one that is granted does; refused ones do it without FREE. */
  lemma Effect(s: State, t: State, root: nat, e: Event) returns (lo: nat, hi: nat, option: nat)
    requires Next(s, t, root, e) && Admissible(s, root, e) && e.Allocation? && t != s
    ensures Allocated(s, t, root, lo, hi, option, e.protect)
    ensures var a, n := RoundUp(e.address), RoundUp(e.size);
            if Refused(s, a, n, e.option)
            then a != 0 && n != 0 && HalfDone(s, a, e.option) && lo == a && hi == a + n && option + MEM_FREE == e.option
            else Placed(s, a, n, lo) && hi == lo + n && option == e.option
  {
    hide Allocated, Refused, Placed, RoundUp, HalfDone;
    var a, n := RoundUp(e.address), RoundUp(e.size);
    if Refused(s, a, n, e.option) {
      lo, hi, option := a, a + n, 0;
      if HalfDone(s, a, e.option) {
        IsHalf(s, a, e.option);
        option := e.option - MEM_FREE;
      }
    } else {
      lo :| Grants(s, t, root, a, n, e.option, e.protect, lo);
      hi, option := lo + n, e.option;
    }
  }

  lemma IsHalf(s: State, a: nat, option: nat)
    requires HalfDone(s, a, option)
    ensures option >= MEM_FREE
  {
    WithoutFree(option);
  }

  lemma NextKeepsIff(s: State, t: State, root: nat, e: Event)
    requires Sound(s, root) && Next(s, t, root, e) && MappedCommitted(s, root)
    ensures MappedCommitted(t, root) <==> Hits(s, root, e)
    ensures RightsCommitted(s, root) && Hits(s, root, e) ==> RightsCommitted(t, root)
  {
    hide Sound, MappedCommitted, RightsCommitted, Allocated, Resumes, Next, Has, Fatal, RoundUp;
    if !Admissible(s, root, e) {
      PassedBy(s, t, root, e);
    } else if e.Allocation? && t == s {
    } else if e.Allocation? {
      var lo, hi, option := Effect(s, t, root, e);
      AllocatedKeeps(s, t, root, lo, hi, option, e.protect);
    } else if WINDOW_LO <= e.CR2 < DYNAMIC_HI {
      Resumed(s, t, root, e);
      FaultKeepsIff(s, t, root, e.CR2);
    } else {
      Resumed(s, t, root, e);
      OtherFault(s, t, root, e.CR2);
      LikeBefore(s, t, root);
    }
  }

  lemma LikeBefore(s: State, t: State, root: nat)
    requires t.c == s.c && forall w: nat :: InDynamic(w) ==> Look(t.m, root, w) == Look(s.m, root, w)
    ensures MappedCommitted(s, root) ==> MappedCommitted(t, root)
    ensures RightsCommitted(s, root) ==> RightsCommitted(t, root)
  {
    hide Look, Has, At, InDynamic, Allows;
  }

  ghost predicate AllCommitted(trace: seq<State>, root: nat) {
    forall i: nat :: i < |trace| ==> MappedAsCommitted(trace[i], root)
  }

  ghost predicate AllHit(trace: seq<State>, root: nat, events: seq<Event>)
    requires |trace| <= |events| + 1
  {
    forall i: nat :: i + 1 < |trace| ==> Hits(trace[i], root, events[i])
  }

  /** In every run that starts so, all mapped pages of dynamic space are committed, and have the rights of their
      commits, at all times, just when every fault in dynamic space comes from a committed address. */
  lemma RunKeepsIff(trace: seq<State>, root: nat, events: seq<Event>)
    requires Trace(trace, root, events) && MappedAsCommitted(trace[0], root)
    ensures AllCommitted(trace, root) <==> AllHit(trace, root, events)
  {
    hide Sound, Next, Hits, MappedCommitted, RightsCommitted;
    if AllHit(trace, root, events) {
      forall i: nat | i < |trace| ensures MappedAsCommitted(trace[i], root) {
        RunKeeps(trace, root, events, i);
      }
    } else {
      var i: nat :| i + 1 < |trace| && !Hits(trace[i], root, events[i]);
      assert NextAt(trace, root, events, i);
      if MappedAsCommitted(trace[i], root) { NextKeepsIff(trace[i], trace[i + 1], root, events[i]); }
    }
  }

  lemma {:induction false} RunKeeps(trace: seq<State>, root: nat, events: seq<Event>, i: nat)
    requires Trace(trace, root, events) && i < |trace| && MappedAsCommitted(trace[0], root)
      && AllHit(trace, root, events)
    ensures MappedAsCommitted(trace[i], root)
    decreases i
  {
    hide Sound, Next, Hits, MappedCommitted, RightsCommitted;
    if i > 0 {
      RunKeeps(trace, root, events, i - 1);
      assert NextAt(trace, root, events, i - 1);
      assert Hits(trace[i - 1], root, events[i - 1]);
      NextKeepsIff(trace[i - 1], trace[i], root, events[i - 1]);
    }
  }

  /** The request commits what is not reserved, and does not take it back. */
  ghost predicate Strays(s: State, root: nat, e: Event) {
    && Admissible(s, root, e) && e.Allocation? && RoundUp(e.address) != 0 && RoundUp(e.size) != 0
    && Asks(e.option, MEM_COMMIT) && !Asks(e.option, MEM_UNCOMMIT) && !Asks(e.option, MEM_RESERVE)
    && !AllIn(s.r, RoundUp(e.address), RoundUp(e.address) + RoundUp(e.size)) && !NotBeyond(s.r, RoundUp(e.address))
  }

  lemma NextBooksIff(s: State, t: State, root: nat, e: Event)
    requires Next(s, t, root, e) && CommittedReserved(s)
    ensures CommittedReserved(t) <==> !Strays(s, root, e)
  {
    hide Allocated, Resumes, Has, Fatal, RoundUp, NotBeyond, CommittedReserved, Asks, Lowest, NoneFits, AllIn;
    if !Admissible(s, root, e) {
      PassedBy(s, t, root, e);
    } else if e.Fault? {
      SameBooksAfter(s, t, root, e.CR2);
    } else if t == s {
      NotStrayed(s, root, e);
    } else {
      var lo, hi, option := Effect(s, t, root, e);
      AllocatedBooksIff(s, t, root, lo, hi, option, e.protect);
      if option != e.option { WithoutFree(e.option); }
    }
  }

  lemma SameBooksAfter(s: State, t: State, root: nat, v: nat)
    requires Resumes(s, t, root, v)
    ensures CommittedReserved(t) <==> CommittedReserved(s)
  {
  }

  /** A commit from beyond is not refused, so something is committed. */
  lemma NotStrayed(s: State, root: nat, e: Event)
    requires Next(s, s, root, e) && Admissible(s, root, e) && e.Allocation? && CommittedReserved(s)
    ensures !Strays(s, root, e)
  {
    var a, n := RoundUp(e.address), RoundUp(e.size);
    hide Allocated, Has, RoundUp, NotBeyond, CommittedReserved, Asks, Lowest, NoneFits, AllIn;
    if Strays(s, root, e) {
      if Refused(s, a, n, e.option) {
        WithoutFree(e.option);
        AllocatedBooksIff(s, s, root, a, a + n, e.option - MEM_FREE, e.protect);
      } else {
        var lo: nat :| Grants(s, s, root, a, n, e.option, e.protect, lo);
        AllocatedBooksIff(s, s, root, a, a + n, e.option, e.protect);
      }
    }
  }

  ghost predicate AllReserved(trace: seq<State>) {
    forall i: nat :: i < |trace| ==> CommittedReserved(trace[i])
  }

  ghost predicate NoneStrays(trace: seq<State>, root: nat, events: seq<Event>)
    requires |trace| <= |events| + 1
  {
    forall i: nat :: i + 1 < |trace| ==> !Strays(trace[i], root, events[i])
  }

  /** In every run that starts so, only reserved space is committed at all times, just when no request commits a range
      from beyond the end of a reserved block without taking it back. */
  lemma RunBooksIff(trace: seq<State>, root: nat, events: seq<Event>)
    requires Trace(trace, root, events) && CommittedReserved(trace[0])
    ensures AllReserved(trace) <==> NoneStrays(trace, root, events)
  {
    hide Accounted, Next, Strays, CommittedReserved;
    if NoneStrays(trace, root, events) {
      forall i: nat | i < |trace| ensures CommittedReserved(trace[i]) {
        RunBooks(trace, root, events, i);
      }
    } else {
      var i: nat :| i + 1 < |trace| && Strays(trace[i], root, events[i]);
      assert NextAt(trace, root, events, i);
      if CommittedReserved(trace[i]) { NextBooksIff(trace[i], trace[i + 1], root, events[i]); }
    }
  }

  lemma {:induction false} RunBooks(trace: seq<State>, root: nat, events: seq<Event>, i: nat)
    requires Trace(trace, root, events) && i < |trace| && CommittedReserved(trace[0])
    requires NoneStrays(trace, root, events)
    ensures CommittedReserved(trace[i])
    decreases i
  {
    hide Accounted, Next, Strays, CommittedReserved;
    if i > 0 {
      RunBooks(trace, root, events, i - 1);
      assert NextAt(trace, root, events, i - 1);
      assert !Strays(trace[i - 1], root, events[i - 1]);
      NextBooksIff(trace[i - 1], trace[i], root, events[i - 1]);
    }
  }
}
