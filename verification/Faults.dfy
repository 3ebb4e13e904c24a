/** The page fault handler of KERNEL/SOURCE/memory/page.c, and whole runs of faults and allocations. */
module PageFaults {
  import opened Intervals
  import opened AvlTree
  import opened MemoryMaps
  import opened Physical
  import opened PageWalk
  import opened Paging
  import opened Regions
  import opened Frames
  import opened Release
  import opened Uncommit
  import opened Space
  import opened VirtualMemories

  const STATIC_LO: nat := 0xFFFF_8000_0000_0000

  /** The handler backs v with a frame of its own, that was free; the options go into the entry. */
  ghost predicate Backs(s: State, t: State, root: nat, v: nat, options: nat, f: nat) {
    && f % 0x1000 == 0 && AllIn(s.frames, f, f + 0x1000) && MapsPage(s.m, t.m, root, v, 0, f, options)
    && Read(t.m, root, v, 3) == Some(PageEntry(f, 0, options))
  }

  ghost predicate Backed(s: State, t: State, root: nat, v: nat, options: nat) {
    exists f: nat :: Backs(s, t, root, v, options, f)
  }

  /** The protection of the last committed block that starts at or below v. */
  ghost function Protection(c: seq<Entry>, v: nat): nat {
    var k := Rank(c, v + 1);
    if k > 0 then c[k - 1].V else 0
  }

  /** The direct map at v: the 1G page around v is mapped to the same physical address, just when no table and no page
      is there yet. */
  ghost predicate Direct(s: State, t: State, root: nat, v: nat) {
    if Open(s.m, root, v, 1) then MapsPage(s.m, t.m, root, v, 2, v % 0x8000_0000_0000, 7)
      else SameMapping(s.m, t.m, root)
  }

  /** What a page fault that returns has done: in the direct map what is said above; in dynamic space and in the stacks
      it has mapped the page of v, with the protection of the committed block below it, or all rights. */
  ghost predicate Resumes(s: State, t: State, root: nat, v: nat) {
    && t.f == s.f && t.r == s.r && t.c == s.c
    && STATIC_LO <= v < WINDOW_HI
    && (v < WINDOW_LO ==> Direct(s, t, root, v))
    && (v >= WINDOW_LO ==> Backed(s, t, root, v, if v < DYNAMIC_HI then 2 * Protection(s.c, v) + 1 else 7))
  }

  /** Faults that the handler does not resolve, whatever memory there is: on present pages, outside its windows, in
      dynamic space below every committed block, on the lowest page of a 2M stretch of stack. */
  ghost predicate Fatal(c: seq<Entry>, error: nat, v: nat) {
    || error % 2 == 1 || v < STATIC_LO || v >= WINDOW_HI
    || (WINDOW_LO <= v < DYNAMIC_HI && forall i :: 0 <= i < |c| ==> v < c[i].A)
    || (DYNAMIC_HI <= v && v / 0x1000 % 512 == 0)
  }

  /** The 4K frames did not last: none is left, though of the free bytes at most three new tables and one frame were
      taken. */
  ghost predicate RanOut(m: Tables, free: seq<Entry>, m': Tables, free': seq<Entry>) {
    NoneUsable(free', 0) && |m'| <= |m| + 3 && exists f: nat :: Spent(free, m', free', f)
  }

  /** Every free byte is still free, in a table, or in the frame f. */
  ghost predicate Spent(free: seq<Entry>, m': Tables, free': seq<Entry>, f: nat) {
    forall x :: Has(free, x) ==> Has(free', x) || InTable(m', x) || f <= x < f + 0x1000
  }

  lemma SpentOne(m: Tables, free: seq<Entry>, free1: seq<Entry>, m': Tables, free': seq<Entry>, f: nat)
    requires NoneUsable(free', 0) && |m'| <= |m| + 3
    requires free1 == free || Without(free, free1, f, f + 0x1000)
    requires Grown(m, free1, m', free')
    ensures RanOut(m, free, m', free')
  {
    assert Spent(free, m', free', f);
  }

  /** The 4K frames that a fault at v needs: the tables that are missing, and one for the page but in the direct map. */
  ghost function Demand(s: State, root: nat, v: nat): nat {
    if v < WINDOW_LO then Missing(s.m, root, v, 2, 0) else 1 + Missing(s.m, root, v, 0, 0)
  }

  /** There are that many. */
  ghost predicate Enough(s: State, root: nat, v: nat) {
    Demand(s, root, v) <= |FreePages(s.frames)|
  }

  lemma {:induction false} IsEnough(s: State, root: nat, v: nat)
    ensures v < WINDOW_LO ==> (Enough(s, root, v) <==> Missing(s.m, root, v, 2, 0) <= |FreePages(s.frames)|)
    ensures v >= WINDOW_LO ==> (Enough(s, root, v) <==> 1 + Missing(s.m, root, v, 0, 0) <= |FreePages(s.frames)|)
  {
  }

  // ---------------------------------------------------------------- a page of its own

  /** The page of an address that is not mapped is not mapped. */
  lemma BaseUnmapped(m: Tables, root: nat, v: nat)
    requires WINDOW_LO <= v < WINDOW_HI && Look(m, root, v) == None
    ensures InWindow(Base(v)) && Look(m, root, Base(v)) == None
  {
    BaseOfWindow(v);
    SameBase(v, Base(v));
    OnePage(m, root, v, Base(v));
  }

  lemma BackedSound(s: State, free1: seq<Entry>, t: State, root: nat, v: nat, options: nat, f: nat)
    requires Sound(s, root) && Separate(s.m, s.frames) && WINDOW_LO <= v < WINDOW_HI && Look(s.m, root, v) == None
    requires f % 0x1000 == 0 && AllIn(s.frames, f, f + 0x1000) && Without(s.frames, free1, f, f + 0x1000)
    requires Grown(s.m, free1, t.m, t.frames) && MapsPage(s.m, t.m, root, v, 0, f, options)
    requires Read(t.m, root, v, 3) == Some(PageEntry(f, 0, options))
    requires t.f == s.f && t.r == s.r && t.c == s.c
    ensures Sound(t, root) && Conserved(s.m, s.frames, t.m, t.frames, root) && Backed(s, t, root, v, options)
  {
    BaseUnmapped(s.m, root, v);
    MapsWindow(s.m, t.m, root, v, f, options);
    hide Look, Base, MapsPage, Grown, Without, Read, PageEntry;
    FaultOwned(s.m, s.frames, free1, t.m, t.frames, root, Base(v), Small(f, options));
    FaultConserved(s.m, s.frames, free1, t.m, t.frames, root, Base(v), Small(f, options));
    assert Backs(s, t, root, v, options, f);
  }

  lemma StaticSound(s: State, t: State, root: nat, v: nat)
    requires Sound(s, root) && STATIC_LO <= v < WINDOW_LO && Grown(s.m, s.frames, t.m, t.frames)
    requires Direct(s, t, root, v)
    requires t.f == s.f && t.r == s.r && t.c == s.c
    ensures Sound(t, root) && Conserved(s.m, s.frames, t.m, t.frames, root) && Resumes(s, t, root, v)
  {
    if Open(s.m, root, v, 1) { StaticElsewhere(s.m, t.m, root, v, v % 0x8000_0000_0000, 7); }
    GrownStillOwned(s.m, s.frames, t.m, t.frames, root);
  }

  /** page.c:60-67 and 76-79: a frame is taken and mapped where the fault was. */
  method Back(paging: PageTables, CR2: nat, options: nat) returns (halted: bool, ghost f: nat, ghost free1: seq<Entry>)
    requires paging.Valid() && options % 2 == 1 && Look(paging.tables, paging.cr3, CR2) == None
    requires Owned(paging.tables, paging.cr3, paging.frames.Entries())
    modifies paging`tables, paging`places, paging.frames, paging.frames.Repr
    ensures paging.Valid() && fresh(paging.frames.Repr - old(paging.frames.Repr))
    ensures halted ==> RanOut(old(paging.tables), old(paging.frames.Entries()), paging.tables, paging.frames.Entries())
    ensures halted <==>
      1 + Missing(old(paging.tables), paging.cr3, CR2, 0, 0) > |FreePages(old(paging.frames.Entries()))|
    ensures !halted ==>
      && f % 0x1000 == 0 && AllIn(old(paging.frames.Entries()), f, f + 0x1000)
      && Without(old(paging.frames.Entries()), free1, f, f + 0x1000)
      && Grown(old(paging.tables), free1, paging.tables, paging.frames.Entries())
      && MapsPage(old(paging.tables), paging.tables, paging.cr3, CR2, 0, f, options)
      && Read(paging.tables, paging.cr3, CR2, 3) == Some(PageEntry(f, 0, options))
  {
    hide *;
    UnmappedIsOpen(paging.tables, paging.cr3, CR2);
    var page;
    page, halted := paging.empty_page();
    f, free1 := page, paging.frames.Entries();
    if halted {
      NothingAdded(paging.tables, free1);
      SpentOne(paging.tables, free1, free1, paging.tables, free1, 0);
      return;
    }
    FrameInReach(old(paging.tables), paging.cr3, old(paging.frames.Entries()), page);
    var code;
    code, halted := paging.linear_mapping(page, CR2, 0, options);
    if halted {
      SpentOne(old(paging.tables), old(paging.frames.Entries()), free1, paging.tables, paging.frames.Entries(), page);
    }
  }

  lemma FrameInReach(m: Tables, root: nat, free: seq<Entry>, f: nat)
    requires Owned(m, root, free) && AllIn(free, f, f + 0x1000)
    ensures f < REACH
  {
    assert Has(free, f);
  }

  lemma Separated(paging: PageTables)
    requires paging.Valid()
    ensures Separate(paging.tables, paging.frames.Entries())
  {
  }

  /** The same in the books. */
  method BackFault(vm: VirtualMemory, CR2: nat, options: nat) returns (resumed: bool)
    requires vm.Valid() && Look(vm.paging.tables, vm.paging.cr3, CR2) == None && options % 2 == 1
      && WINDOW_LO <= CR2 < WINDOW_HI
    modifies vm.paging`tables, vm.paging`places, vm.paging.frames, vm.Blocks()
    ensures vm.Trees() && fresh(vm.Blocks() - old(vm.Blocks()))
    ensures !resumed ==> RanOut(old(vm.Now()).m, old(vm.Now()).frames, vm.Now().m, vm.Now().frames)
    ensures resumed <==> Enough(old(vm.Now()), vm.paging.cr3, CR2)
    ensures resumed ==>
      vm.Valid() && Backed(old(vm.Now()), vm.Now(), vm.paging.cr3, CR2, options) && SameBooks(old(vm.Now()), vm.Now())
    ensures resumed ==> Conserved(old(vm.Now()).m, old(vm.Now()).frames, vm.Now().m, vm.Now().frames, vm.paging.cr3)
  {
    hide *;
    vm.Opened();
    vm.Parts();
    Separated(vm.paging);
    ghost var s := vm.Now();
    IsEnough(s, vm.paging.cr3, CR2);
    WindowsAre();
    var halted;
    ghost var f, free1;
    halted, f, free1 := Back(vm.paging, CR2, options);
    vm.StillApart();
    vm.Whole();
    if !halted {
      BackedSound(s, free1, vm.Now(), vm.paging.cr3, CR2, options, f);
      AreSameBooks(s, vm.Now());
      vm.Closed();
    }
    resumed := !halted;
  }

  ghost predicate SameBooks(s: State, t: State) {
    t.f == s.f && t.r == s.r && t.c == s.c
  }

  lemma AreSameBooks(s: State, t: State)
    ensures SameBooks(s, t) <==> t.f == s.f && t.r == s.r && t.c == s.c
  {
  }

  lemma WindowsAre()
    ensures WINDOW_LO < DYNAMIC_HI < WINDOW_HI
  {
  }

  lemma Resolved(s: State, t: State, root: nat, v: nat)
    requires SameBooks(s, t) && WINDOW_LO <= v < WINDOW_HI
    requires Backed(s, t, root, v, if v < DYNAMIC_HI then 2 * Protection(s.c, v) + 1 else 7)
    ensures Resumes(s, t, root, v)
  {
  }

  lemma IsDirect(s: State, t: State, root: nat, v: nat)
    requires if Open(s.m, root, v, 1) then MapsPage(s.m, t.m, root, v, 2, v % 0x8000_0000_0000, 7)
      else SameMapping(s.m, t.m, root)
    ensures Direct(s, t, root, v)
  {
  }

  lemma DirectInReach(v: nat)
    ensures v % 0x8000_0000_0000 < REACH
  {
  }

  /** page.c:46-52: the direct map is made as it is used, 1G at a time. */
  method StaticFault(vm: VirtualMemory, CR2: nat) returns (resumed: bool)
    requires vm.Valid() && STATIC_LO <= CR2 < WINDOW_LO
    modifies vm.paging`tables, vm.paging`places, vm.paging.frames, vm.Blocks()
    ensures vm.Trees() && fresh(vm.Blocks() - old(vm.Blocks()))
    ensures !resumed ==> RanOut(old(vm.Now()).m, old(vm.Now()).frames, vm.Now().m, vm.Now().frames)
    ensures resumed <==> Enough(old(vm.Now()), vm.paging.cr3, CR2)
    ensures resumed ==> vm.Valid() && Resumes(old(vm.Now()), vm.Now(), vm.paging.cr3, CR2)
    ensures resumed ==> Conserved(old(vm.Now()).m, old(vm.Now()).frames, vm.Now().m, vm.Now().frames, vm.paging.cr3)
  {
    hide *;
    vm.Opened();
    vm.Parts();
    ghost var s := vm.Now();
    IsEnough(s, vm.paging.cr3, CR2);
    DirectInReach(CR2);
    var code, halted;
    code, halted := vm.paging.linear_mapping(CR2 % 0x8000_0000_0000, CR2, 2, 7);
    vm.StillApart();
    vm.Whole();
    if !halted {
      IsDirect(s, vm.Now(), vm.paging.cr3, CR2);
      StaticSound(s, vm.Now(), vm.paging.cr3, CR2);
      vm.Closed();
    } else {
      SpentOne(s.m, s.frames, s.frames, vm.paging.tables, vm.paging.frames.Entries(), 0);
    }
    resumed := !halted;
  }

  /** page.c:56-58: the last committed block that starts at or below an address. */
  method CommittedBelow(vm: VirtualMemory, CR2: nat) returns (found: bool, V: nat)
    requires vm.Valid()
    ensures found <==> exists i :: 0 <= i < |vm.Now().c| && vm.Now().c[i].A <= CR2
    ensures found ==> V == Protection(vm.Now().c, CR2)
  {
    hide *;
    vm.Opened();
    vm.Parts();
    CommitMapStrict(vm.cmt.Entries());
    found, V := FloorValue(vm.cmt, CR2);
    assert vm.Now().c == vm.cmt.Entries();
  }

  method FloorValue(cmt: MemoryMap, address: nat) returns (found: bool, V: nat)
    requires cmt.Valid() && Sorted(cmt.Entries())
    ensures found <==> exists i :: 0 <= i < |cmt.Entries()| && cmt.Entries()[i].A <= address
    ensures found ==> V == Protection(cmt.Entries(), address)
  {
    hide MemoryMap.Valid, Sorted, EntriesOf, Rank;
    var cr;
    ghost var k, steps;
    cr, k, steps := cmt.SearchMemoryNode(address, 0);
    Below(cmt.Entries(), address, k);
    found, V := cr != null, 0;
    if cr != null {
      cmt.Holds(k - 1);
      V := cr.V;
    }
  }

  lemma Below(es: seq<Entry>, a: nat, k: nat)
    requires Sorted(es) && Splits(es, a + 1, k)
    ensures k > 0 <==> exists i :: 0 <= i < |es| && es[i].A <= a
    ensures k > 0 ==> Protection(es, a) == es[k - 1].V
  {
    SplitsOnce(es, a + 1, k, Rank(es, a + 1));
    if k > 0 { assert es[k - 1].A <= a; }
  }

  lemma Windows(c: seq<Entry>, error: nat, v: nat)
    ensures STATIC_LO == 0xFFFF_8000_0000_0000 && WINDOW_LO == 0xFFFF_9000_0000_0000
      && DYNAMIC_HI == 0xFFFF_E000_0000_0000 && WINDOW_HI == 0xFFFF_F000_0000_0000
    ensures Fatal(c, error, v) <==>
      || error % 2 == 1 || v < STATIC_LO || v >= WINDOW_HI
      || (WINDOW_LO <= v < DYNAMIC_HI && !exists i :: 0 <= i < |c| && c[i].A <= v)
      || (DYNAMIC_HI <= v && v / 0x1000 % 512 == 0)
  {
  }

  /** `INT0E`, page.c:42-84. It returns just when the fault is not fatal and there are frames enough; where it does not,
      the machine stops. */
  method INT0E(vm: VirtualMemory, error: nat, CR2: nat) returns (resumed: bool)
    requires vm.Valid() && (error % 2 == 0 ==> Look(vm.paging.tables, vm.paging.cr3, CR2) == None)
    modifies vm.paging`tables, vm.paging`places, vm.paging.frames, vm.Blocks()
    ensures vm.Trees() && fresh(vm.Blocks() - old(vm.Blocks()))
    ensures Fatal(old(vm.Now()).c, error, CR2) ==> !resumed
    ensures resumed <==> !Fatal(old(vm.Now()).c, error, CR2) && Enough(old(vm.Now()), vm.paging.cr3, CR2)
    ensures !resumed ==>
      Fatal(old(vm.Now()).c, error, CR2) || RanOut(old(vm.Now()).m, old(vm.Now()).frames, vm.Now().m, vm.Now().frames)
    ensures resumed ==> vm.Valid() && Resumes(old(vm.Now()), vm.Now(), vm.paging.cr3, CR2)
    ensures resumed ==> Conserved(old(vm.Now()).m, old(vm.Now()).frames, vm.Now().m, vm.Now().frames, vm.paging.cr3)
  {
    hide *;
    vm.Opened();
    vm.Parts();
    Windows(vm.Now().c, error, CR2);
    ghost var s := vm.Now();
    resumed := false;
    if error % 2 == 0 && CR2 >= 0xFFFF_8000_0000_0000 {
      if CR2 < 0xFFFF_9000_0000_0000 {
        resumed := StaticFault(vm, CR2);
      } else if CR2 < 0xFFFF_E000_0000_0000 {
        var cr, V := CommittedBelow(vm, CR2);
        vm.Opened();
        vm.Parts();
        assert vm.Blocks() == old(vm.Blocks());
        if cr {
          resumed := BackFault(vm, CR2, 2 * V + 1);
          vm.Parts();
          if resumed { Resolved(s, vm.Now(), vm.paging.cr3, CR2); }
        }
      } else if CR2 < 0xFFFF_F000_0000_0000 {
        var idx3 := CR2 / 0x1000 % 512;
        if idx3 != 0 {
          resumed := BackFault(vm, CR2, 7);
          if resumed { Resolved(s, vm.Now(), vm.paging.cr3, CR2); }
        }
      }
    }
  }
  // ---------------------------------------------------------------- whole runs

  /** Each physical byte is in at most one of these places: the free map, a page table, the frame of one window page. */
  lemma OneOwner(s: State, root: nat, x: int)
    requires Sound(s, root) && Separate(s.m, s.frames)
    ensures !(Has(s.frames, x) && InTable(s.m, x)) && !(Has(s.frames, x) && Used(s.m, root, x))
      && !(InTable(s.m, x) && Used(s.m, root, x))
    ensures forall v: nat, w: nat ::
      InWindow(v) && InWindow(w) && Holding(s.m, root, v, x) && Holding(s.m, root, w, x) ==> v == w
  {
    if Used(s.m, root, x) {
      var v: nat :| InWindow(v) && Holding(s.m, root, v, x);
      var p := Look(s.m, root, v).value;
      assert GoodFrame(s.m, s.frames, p);
      SameFrame(x, p.at);
    }
    forall v: nat, w: nat | InWindow(v) && InWindow(w) && Holding(s.m, root, v, x) && Holding(s.m, root, w, x)
      ensures v == w {
      OneHolder(s.m, root, s.frames, v, w, x);
    }
  }

  datatype Event = Allocation(address: nat, size: nat, option: nat, protect: nat) | Fault(error: nat, CR2: nat)

  /** A request that wraps around the address space, or commits from beyond the end of a reserved block to beyond the
      windows, is not one virtual.c is made for; a fault for want of a mapping happens only where there is none. */
  ghost predicate Admissible(s: State, root: nat, e: Event) {
    match e
    case Allocation(address, size, option, _) =>
      && address < QWORDS && size < QWORDS && RoundUp(address) + RoundUp(size) < QWORDS
      && (Asks(option, MEM_COMMIT) && !Asks(option, MEM_RESERVE) ==>
        StaysBelow(s.r, RoundUp(address), RoundUp(address) + RoundUp(size)))
    case Fault(error, CR2) => error % 2 == 0 ==> Look(s.m, root, CR2) == None
  }

  lemma ConservedOn(m0: Tables, f0: seq<Entry>, m1: Tables, f1: seq<Entry>, m2: Tables, f2: seq<Entry>, root: nat)
    requires Conserved(m0, f0, m1, f1, root) && Conserved(m1, f1, m2, f2, root)
    ensures Conserved(m0, f0, m2, f2, root)
  {
  }

  lemma ConservedNow(m: Tables, f: seq<Entry>, root: nat)
    ensures Conserved(m, f, m, f, root)
  {
  }

  lemma AllocatedConserves(s: State, t: State, root: nat, lo: nat, hi: nat, option: nat, protect: nat)
    requires Sound(s, root) && (t == s || Allocated(s, t, root, lo, hi, option, protect))
    ensures Conserved(s.m, s.frames, t.m, t.frames, root)
  {
    if t == s { ConservedNow(s.m, s.frames, root); }
    else { ReleasedOwned(s.m, s.frames, t.m, t.frames, root, Dropped(s.c, lo, hi, option)); }
  }

  lemma LeavesConserves(s: State, t: State, root: nat, a: nat, size: nat, option: nat, protect: nat)
    requires Sound(s, root) && Leaves(s, t, root, a, size, option, protect)
    ensures Conserved(s.m, s.frames, t.m, t.frames, root)
  {
    hide Allocated, Conserved, Sound;
    if a == 0 || size == 0 || !HalfDone(s, a, option) {
      ConservedNow(s.m, s.frames, root);
    } else {
      AllocatedConserves(s, t, root, a, a + size, option - MEM_FREE, protect);
    }
  }

  /** The address that `NtAllocateVirtualMemory` works at: the one given, or the lowest from which enough bytes are
      free. */
  ghost predicate Placed(s: State, address: nat, size: nat, lo: nat) {
    if address != 0 then lo == address else Lowest(s.f, size, lo)
  }

  ghost predicate Grants(s: State, t: State, root: nat, address: nat, size: nat, option: nat, protect: nat, lo: nat) {
    Placed(s, address, size, lo) && Allocated(s, t, root, lo, lo + size, option, protect)
  }

  /** What an event that the machine survives has done; one that is not admissible was passed over. */
  ghost predicate Next(s: State, t: State, root: nat, e: Event) {
    if !Admissible(s, root, e) then t == s else
    match e
    case Allocation(address, size, option, protect) =>
      if Refused(s, RoundUp(address), RoundUp(size), option)
      then Leaves(s, t, root, RoundUp(address), RoundUp(size), option, protect)
      else exists lo: nat :: Grants(s, t, root, RoundUp(address), RoundUp(size), option, protect, lo)
    case Fault(error, CR2) => !Fatal(s.c, error, CR2) && Enough(s, root, CR2) && Resumes(s, t, root, CR2)
  }

  /** What stops the machine: a fault that nothing resolves, or one for which the free frames did not last. */
  ghost predicate Stops(s: State, t: State, root: nat, e: Event) {
    && Admissible(s, root, e) && e.Fault?
    && (Fatal(s.c, e.error, e.CR2) || (!Enough(s, root, e.CR2) && RanOut(s.m, s.frames, t.m, t.frames)))
  }

  lemma NextAllocation(s: State, t: State, root: nat, address: nat, size: nat, option: nat, protect: nat, r: nat)
    requires Admissible(s, root, Allocation(address, size, option, protect))
    requires r == 0 <==> Refused(s, RoundUp(address), RoundUp(size), option)
    requires r == 0 ==> Leaves(s, t, root, RoundUp(address), RoundUp(size), option, protect)
    requires r != 0 ==> Allocated(s, t, root, r, r + RoundUp(size), option, protect)
    requires r != 0 ==> if RoundUp(address) != 0 then r == RoundUp(address) else Lowest(s.f, RoundUp(size), r)
    ensures Next(s, t, root, Allocation(address, size, option, protect))
  {
    hide Allocated, Refused, Lowest, RoundUp, Leaves;
    if r != 0 { assert Grants(s, t, root, RoundUp(address), RoundUp(size), option, protect, r); }
  }

  lemma NextFault(s: State, t: State, root: nat, error: nat, CR2: nat)
    requires Admissible(s, root, Fault(error, CR2))
    ensures !Fatal(s.c, error, CR2) && Enough(s, root, CR2) && Resumes(s, t, root, CR2) ==>
      Next(s, t, root, Fault(error, CR2))
    ensures Fatal(s.c, error, CR2) || (!Enough(s, root, CR2) && RanOut(s.m, s.frames, t.m, t.frames)) ==>
      Stops(s, t, root, Fault(error, CR2))
  {
    hide Fatal, Resumes, RanOut, Enough;
  }

  /** One event. */
  method Step(vm: VirtualMemory, e: Event) returns (running: bool)
    requires vm.Valid() && Admissible(vm.Now(), vm.paging.cr3, e)
    modifies vm.fre, vm.rsv, vm.cmt, vm.paging`tables, vm.paging`places, vm.paging.frames, vm.Blocks()
    ensures vm.Trees() && fresh(vm.Blocks() - old(vm.Blocks()))
    ensures running ==>
      vm.Valid() && Conserved(old(vm.Now()).m, old(vm.Now()).frames, vm.Now().m, vm.Now().frames, vm.paging.cr3)
    ensures running ==> Next(old(vm.Now()), vm.Now(), vm.paging.cr3, e)
    ensures !running ==> Stops(old(vm.Now()), vm.Now(), vm.paging.cr3, e)
  {
    hide *;
    vm.Opened();
    vm.Parts();
    AdmissibleMeans(vm.Now(), vm.paging.cr3, e);
    ghost var s := vm.Now();
    match e
    case Allocation(address, size, option, protect) =>
      var r := vm.NtAllocateVirtualMemory(address, size, option, protect);
      vm.Opened();
      if r == 0 {
        LeavesConserves(s, vm.Now(), vm.paging.cr3, RoundUp(address), RoundUp(size), option, protect);
      } else {
        AllocatedConserves(s, vm.Now(), vm.paging.cr3, r, r + RoundUp(size), option, protect);
      }
      NextAllocation(s, vm.Now(), vm.paging.cr3, address, size, option, protect, r);
      running := true;
    case Fault(error, CR2) =>
      running := INT0E(vm, error, CR2);
      NextFault(s, vm.Now(), vm.paging.cr3, error, CR2);
  }

  lemma AdmissibleMeans(s: State, root: nat, e: Event)
    requires Admissible(s, root, e)
    ensures match e
            case Allocation(address, size, option, _) =>
              && address < QWORDS && size < QWORDS && RoundUp(address) + RoundUp(size) < QWORDS
              && (Asks(option, MEM_COMMIT) && !Asks(option, MEM_RESERVE) ==>
                StaysBelow(s.r, RoundUp(address), RoundUp(address) + RoundUp(size)))
            case Fault(error, CR2) => error % 2 == 0 ==> Look(s.m, root, CR2) == None
  {
  }

  /** Is an event admissible? */
  method Admits(vm: VirtualMemory, e: Event) returns (ok: bool)
    requires vm.Valid()
    ensures ok <==> Admissible(vm.Now(), vm.paging.cr3, e)
  {
    hide *;
    vm.Opened();
    vm.Parts();
    ghost var s, root := vm.Now(), vm.paging.cr3;
    match e
    case Allocation(address, size, option, protect) =>
      MayAllocate(s, root, address, size, option, protect);
      if address >= QWORDS || size >= QWORDS {
        return false;
      }
      var region;
      ghost var k;
      region, k := FloorOf(vm.rsv, RoundUp(address), 1);
      NearFloor(vm.rsv.Entries(), RoundUp(address), if region == null then 0 else k + 1);
      var near := region == null || RoundUp(address) <= region.A + region.S;
      var end := RoundUp(address) + RoundUp(size);
      ok := end < QWORDS && (Asks(option, MEM_COMMIT) && !Asks(option, MEM_RESERVE) ==> near || end <= WINDOW_HI);
    case Fault(error, CR2) =>
      MayFault(s, root, error, CR2);
      ok := error % 2 == 0 ==> physical_mapping(vm.paging.tables, vm.paging.cr3, CR2) == None;
  }

  lemma MayAllocate(s: State, root: nat, address: nat, size: nat, option: nat, protect: nat)
    ensures Admissible(s, root, Allocation(address, size, option, protect)) <==>
      && address < QWORDS && size < QWORDS && RoundUp(address) + RoundUp(size) < QWORDS
      && (Asks(option, MEM_COMMIT) && !Asks(option, MEM_RESERVE) ==>
        NotBeyond(s.r, RoundUp(address)) || RoundUp(address) + RoundUp(size) <= WINDOW_HI)
  {
  }

  lemma MayFault(s: State, root: nat, error: nat, CR2: nat)
    ensures Admissible(s, root, Fault(error, CR2)) <==> (error % 2 == 0 ==> physical_mapping(s.m, root, CR2) == None)
  {
    WalkByTables(s.m, root, CR2);
  }

  lemma NearFloor(es: seq<Entry>, a: nat, k: nat)
    requires Sorted(es) && Splits(es, a + 1, k)
    ensures NotBeyond(es, a) <==> (k > 0 ==> a <= Bound(es[k - 1]))
  {
    SplitsOnce(es, a + 1, k, Rank(es, a + 1));
  }

  ghost predicate NextAt(trace: seq<State>, root: nat, events: seq<Event>, i: nat)
    requires i + 1 < |trace| <= |events| + 1
  {
    Next(trace[i], trace[i + 1], root, events[i])
  }

  /** The books are right, no byte is both free and in a table, and there are the bytes that there were in s0. */
  ghost predicate Accounted(s0: State, s: State, root: nat) {
    Sound(s, root) && Separate(s.m, s.frames) && Conserved(s0.m, s0.frames, s.m, s.frames, root)
  }

  /** The states of a machine that takes the events one by one, all of them in order. */
  ghost predicate Trace(trace: seq<State>, root: nat, events: seq<Event>) {
    && 1 <= |trace| <= |events| + 1
    && (forall i: nat :: i < |trace| ==> Accounted(trace[0], trace[i], root))
    && (forall i: nat :: i + 1 < |trace| ==> NextAt(trace, root, events, i))
  }

  lemma TraceStart(s: State, root: nat, events: seq<Event>)
    requires Sound(s, root) && Separate(s.m, s.frames)
    ensures Trace([s], root, events)
  {
    ConservedNow(s.m, s.frames, root);
  }

  lemma TraceMore(trace: seq<State>, root: nat, events: seq<Event>, t: State)
    requires Trace(trace, root, events) && |trace| <= |events| && Sound(t, root) && Separate(t.m, t.frames)
    requires Conserved(trace[0].m, trace[0].frames, t.m, t.frames, root)
    requires Next(trace[|trace| - 1], t, root, events[|trace| - 1])
    ensures Trace(trace + [t], root, events)
  {
    IsAccounted(trace[0], t, root);
    hide Accounted, Next;
    var now := trace + [t];
    forall i: nat | i + 1 < |now| ensures NextAt(now, root, events, i) {
      if i + 1 < |trace| {
        assert NextAt(trace, root, events, i);
        assert now[i] == trace[i] && now[i + 1] == trace[i + 1];
      }
    }
  }

  lemma IsAccounted(s0: State, s: State, root: nat)
    ensures Accounted(s0, s, root) <==>
      Sound(s, root) && Separate(s.m, s.frames) && Conserved(s0.m, s0.frames, s.m, s.frames, root)
  {
  }

  lemma PassedOver(s: State, root: nat, e: Event)
    requires !Admissible(s, root, e)
    ensures Next(s, s, root, e)
  {
  }

  /** Every run of allocations and page faults goes through sound states, gives every frame one owner and loses none,
      until a fault stops the machine; and it stops for a fatal fault or for want of frames only. */
  method Run(vm: VirtualMemory, events: seq<Event>) returns (running: bool, ghost trace: seq<State>)
    requires vm.Valid()
    modifies vm.fre, vm.rsv, vm.cmt, vm.paging`tables, vm.paging`places, vm.paging.frames, vm.Blocks()
    ensures Trace(trace, vm.paging.cr3, events) && trace[0] == old(vm.Now())
    ensures running ==> |trace| == |events| + 1 && vm.Valid() && vm.Now() == trace[|events|]
    ensures running ==> Conserved(old(vm.Now()).m, old(vm.Now()).frames, vm.Now().m, vm.Now().frames, vm.paging.cr3)
    ensures !running ==> |trace| <= |events| && Stops(trace[|trace| - 1], vm.Now(), vm.paging.cr3, events[|trace| - 1])
  {
    hide *;
    ghost var s := vm.Now();
    ConservedNow(s.m, s.frames, vm.paging.cr3);
    running, trace := true, [s];
    vm.Opened();
    vm.Parts();
    Separated(vm.paging);
    TraceStart(s, vm.paging.cr3, events);
    var i := 0;
    while i < |events| && running
      invariant 0 <= i <= |events| && fresh(vm.Blocks() - old(vm.Blocks()))
      invariant Trace(trace, vm.paging.cr3, events) && 1 <= |trace| && trace[0] == s
      invariant running ==> vm.Valid() && Conserved(s.m, s.frames, vm.Now().m, vm.Now().frames, vm.paging.cr3)
      invariant running ==> |trace| == i + 1 && trace[i] == vm.Now()
      invariant !running ==> |trace| == i && Stops(trace[i - 1], vm.Now(), vm.paging.cr3, events[i - 1])
    {
      vm.Opened();
      vm.Parts();
      ghost var t, blocks := vm.Now(), vm.Blocks();
      var ok := Admits(vm, events[i]);
      vm.Opened();
      vm.Parts();
      if ok {
        running := Step(vm, events[i]);
        vm.Parts();
        assert fresh(vm.Blocks() - blocks);
        assert vm.Blocks() - old(vm.Blocks()) <= (vm.Blocks() - blocks) + (blocks - old(vm.Blocks()));
        if running {
          vm.Opened();
          ConservedOn(s.m, s.frames, t.m, t.frames, vm.Now().m, vm.Now().frames, vm.paging.cr3);
        }
      } else {
        PassedOver(t, vm.paging.cr3, events[i]);
      }
      if running {
        vm.Opened();
        vm.Parts();
        Separated(vm.paging);
        TraceMore(trace, vm.paging.cr3, events, vm.Now());
        trace := trace + [vm.Now()];
      }
      i := i + 1;
    }
  }
}
