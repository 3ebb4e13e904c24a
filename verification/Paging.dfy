/** KERNEL/SOURCE/memory/page.c: the functions that change the page tables, and where their frames come from. */
module Paging {
  import opened Intervals
  import opened AvlTree
  import opened MemoryMaps
  import opened Physical
  import opened PageWalk

  /** The byte x lies in one of the table frames. */
  ghost predicate InTable(m: Tables, x: int) {
    x >= 0 && Frame(x) in m
  }

  /** No byte is both free and in a table. */
  ghost predicate Separate(m: Tables, free: seq<Entry>) {
    forall x :: Has(free, x) ==> !InTable(m, x)
  }

  /** Every free byte has an address that fits into an entry of a table. */
  ghost predicate InReach(free: seq<Entry>) {
    forall x :: Has(free, x) ==> x < REACH
  }

  /** Tables were only added, and their bytes came out of the free map. */
  ghost predicate Grown(m: Tables, free: seq<Entry>, m': Tables, free': seq<Entry>) {
    && m.Keys <= m'.Keys
    && (forall x :: Has(free', x) ==> Has(free, x))
    && (forall x :: Has(free', x) || InTable(m', x) <==> Has(free, x) || InTable(m, x))
  }

  class PageTables {
    const frames: MemoryMap
    const cr3: nat
    var tables: Tables
    ghost var places: Places

    /** The state the boot loader hands over: a root table and the free map. */
    constructor (frames: MemoryMap, cr3: nat, tables: Tables, ghost places: Places)
      requires Healthy(frames) && TableTree(tables, places, cr3) && Separate(tables, frames.Entries())
        && InReach(frames.Entries())
      ensures this.frames == frames && this.cr3 == cr3 && this.tables == tables && Valid()
    {
      this.frames, this.cr3, this.tables, this.places := frames, cr3, tables, places;
    }

    ghost predicate Valid()
      reads this, frames, frames.Repr
    {
      && Healthy(frames) && TableTree(tables, places, cr3) && Separate(tables, frames.Entries())
      && InReach(frames.Entries())
    }

    /** What the tables as they are map v to. */
    ghost function Translate(v: nat): Option<Page>
      reads this`tables
    {
      Look(tables, cr3, v)
    }

    /** `empty_page`: a 4K frame, or the halt of `MemoryNotEnough`. */
    method empty_page() returns (page: nat, halted: bool)
      requires Valid()
      modifies frames, frames.Repr
      ensures Valid() && fresh(frames.Repr - old(frames.Repr))
      ensures halted <==> NoneUsable(old(frames.Entries()), 0)
      ensures halted ==> frames.Entries() == old(frames.Entries())
      ensures !halted ==> page % 0x1000 == 0 && page !in tables && page < REACH
      ensures !halted ==>
        Without(old(frames.Entries()), frames.Entries(), page, page + 0x1000)
        && AllIn(old(frames.Entries()), page, page + 0x1000)
      ensures if halted then |FreePages(old(frames.Entries()))| == 0
              else |FreePages(frames.Entries())| + 1 == |FreePages(old(frames.Entries()))|
    {
      hide *;
      IsValid();
      ghost var free := frames.Entries();
      IsHealthy(frames);
      NoFreePages(free);
      var code, count;
      code, page, count := AllocatePhysicalMemory(frames, 0, 0, 1);
      halted := count == 0;
      if NoneUsable(free, 0) {
        assert halted && frames.Entries() == free;
      } else {
        OnePageTaken(tables, free, frames.Entries(), page, count);
      }
      IsValid();
    }

    /** `page_entry`: the table behind an entry, made if there is none; none behind a large page. */
    method page_entry(PT: Option<nat>, idx: nat, ghost w: nat, ghost k: nat) returns (next: Option<nat>, halted: bool)
      requires Valid() && k < 3 && PT == Table(tables, cr3, w, k) && idx == Idx(k, w)
      modifies this`tables, this`places, frames, frames.Repr
      ensures Valid() && fresh(frames.Repr - old(frames.Repr))
      ensures SameMapping(old(tables), tables, cr3)
      ensures Grown(old(tables), old(frames.Entries()), tables, frames.Entries())
      ensures forall K :: k < K <= 3 ==> (Open(tables, cr3, w, K) <==> Open(old(tables), cr3, w, K))
      ensures !halted ==> next == Table(tables, cr3, w, k + 1)
      ensures !halted ==>
        (next.None? <==>
        PT.None? || (Present(Word(old(tables), PT.value, idx)) && Large(Word(old(tables), PT.value, idx))))
      ensures halted <==> PT.Some? && !Present(Word(old(tables), PT.value, idx)) && NoneUsable(old(frames.Entries()), 0)
      ensures (halted ==> NoneUsable(frames.Entries(), 0)) && |tables| <= |old(tables)| + 1
      ensures if PT.Some? && !Present(Word(old(tables), PT.value, idx))
              then AddsOne(old(tables), old(frames.Entries()), w, k, next, halted)
              else !halted && tables == old(tables) && frames.Entries() == old(frames.Entries())
    {
      halted := false;
      match PT
      case None => next := None;
      case Some(f) =>
        TableInTree(tables, places, cr3, w, k);
        if !Present(tables[f][idx]) {
          next, halted := NewTable(f, idx, w, k);
        } else if Large(tables[f][idx]) {
          assert Child(tables, places, f, idx);
          next := None;
        } else {
          next := Some(Frame(tables[f][idx]));
        }
    }

    /** A table was made out of a free frame, and is empty; or there was none, and nothing has changed. */
    ghost predicate AddsOne(m: Tables, free: seq<Entry>, w: nat, k: nat, next: Option<nat>, halted: bool)
      reads this`tables, frames`tree
    {
      if halted then |FreePages(free)| == 0 && tables == m && frames.Entries() == free
      else
        && next.Some? && Table(tables, cr3, w, k + 1) == next && Word(tables, next.value, Idx(k + 1, w)) == 0
        && |tables| == |m| + 1 && |FreePages(frames.Entries())| + 1 == |FreePages(free)|
    }

    /** The part of `page_entry` for an entry that is not present. */
    method NewTable(f: nat, idx: nat, ghost w: nat, ghost k: nat) returns (next: Option<nat>, halted: bool)
      requires Valid() && k < 3 && Some(f) == Table(tables, cr3, w, k) && idx == Idx(k, w)
      requires !Present(Word(tables, f, idx))
      modifies this`tables, this`places, frames, frames.Repr
      ensures Valid() && fresh(frames.Repr - old(frames.Repr))
      ensures SameMapping(old(tables), tables, cr3)
      ensures Grown(old(tables), old(frames.Entries()), tables, frames.Entries())
      ensures forall K :: k < K <= 3 ==> (Open(tables, cr3, w, K) <==> Open(old(tables), cr3, w, K))
      ensures !halted ==> next.Some? && next == Table(tables, cr3, w, k + 1)
      ensures halted <==> NoneUsable(old(frames.Entries()), 0)
      ensures (halted ==> NoneUsable(frames.Entries(), 0)) && |tables| <= |old(tables)| + 1
      ensures AddsOne(old(tables), old(frames.Entries()), w, k, next, halted)
    {
      hide *;
      IsValid();
      ghost var m, at, free := tables, places, frames.Entries();
      var l;
      l, halted := empty_page();
      IsValid();
      if halted {
        next := None;
        NothingAdded(m, free);
        NothingMapped(m, cr3);
        AddedOne(m, free, w, k, next, halted);
        return;
      }
      TableAdded(m, at, cr3, w, k, l, f, idx);
      tables := tables[l := Zeros()];
      tables := Put(tables, f, idx, l + 3);
      places := places[l := Place(k + 1, f, idx)];
      next := Some(l);
      AddedTable(m, free, tables, frames.Entries(), l);
      AddedOne(m, free, w, k, next, halted);
      IsValid();
    }

    lemma {:induction false} AddedOne(m: Tables, free: seq<Entry>, w: nat, k: nat, next: Option<nat>, halted: bool)
      ensures AddsOne(m, free, w, k, next, halted) <==>
        if halted then |FreePages(free)| == 0 && tables == m && frames.Entries() == free
        else
          && next.Some? && Table(tables, cr3, w, k + 1) == next && Word(tables, next.value, Idx(k + 1, w)) == 0
          && |tables| == |m| + 1 && |FreePages(frames.Entries())| + 1 == |FreePages(free)|
    {
    }

    lemma IsValid()
      ensures Valid() <==>
        && Healthy(frames) && TableTree(tables, places, cr3) && Separate(tables, frames.Entries())
        && InReach(frames.Entries())
    {
    }

    /** `linear_mapping`: 0 when the page was mapped, 1 when it was not, or the halt for want of a table. */
    method linear_mapping(addr: nat, linear: nat, size: nat, options: nat) returns (code: nat, halted: bool)
      requires Valid() && options % 2 == 1 && addr < REACH
      modifies this`tables, this`places, frames, frames.Repr
      ensures Valid() && fresh(frames.Repr - old(frames.Repr))
      ensures Grown(old(tables), old(frames.Entries()), tables, frames.Entries())
      ensures if code == 0 && !halted then size <= 2 && MapsPage(old(tables), tables, cr3, linear, size, addr, options)
                                           && Read(tables, cr3, linear, 3 - size) ==
                                             Some(PageEntry(addr, size, options))
              else SameMapping(old(tables), tables, cr3)
      ensures !halted ==> code == if size <= 2 && Open(old(tables), cr3, linear, 3 - size) then 0 else 1
      ensures halted ==> NoneUsable(frames.Entries(), 0)
      ensures |tables| <= |old(tables)| + 3
      ensures halted <==> Missing(old(tables), cr3, linear, size, 0) > |FreePages(old(frames.Entries()))|
      ensures Paid(old(tables), old(frames.Entries()), Missing(old(tables), cr3, linear, size, 0))
    {
      hide *;
      ghost var m0, free0, w := tables, frames.Entries(), linear;
      RootTable();
      RootLeads(w);
      SinceNow(w);
      code := 1;
      var L1;
      L1, halted := Follow(Some(cr3), Idx(0, linear), w, 0, m0, free0, size);
      PaidFor(m0, free0, Missing(m0, cr3, w, size, 0));
      if halted {
        return;
      }
      if L1.Some? && size == 2 && !Present(Word(tables, L1.value, Idx(1, linear))) {
        StoredHere(tables, cr3, linear, size);
        StoreLeaf(L1.value, addr, linear, size, options, m0, free0);
        PaidFor(m0, free0, Missing(m0, cr3, w, size, 0));
        return 0, false;
      }
      ghost var m1, free1 := tables, frames.Entries();
      code, halted := linear_mapping_below(L1, addr, linear, size, options, m0, free0);
      PaidFor(m1, free1, Missing(m1, cr3, w, size, 1));
      PaidFor(m0, free0, Missing(m0, cr3, w, size, 0));
    }

    /** The rest of `linear_mapping`, from the second table on. */
    method linear_mapping_below(L1: Option<nat>, addr: nat, linear: nat, size: nat, options: nat, ghost m0: Tables,
        ghost free0: seq<Entry>)
        returns (code: nat, halted: bool)
      requires Valid() && options % 2 == 1 && addr < REACH
      requires L1.Some? && L1 == Table(tables, cr3, linear, 1) && Since(m0, free0, linear, 1)
      requires size == 2 ==> !Open(m0, cr3, linear, 1) && Present(Word(tables, L1.value, Idx(1, linear)))
      modifies this`tables, this`places, frames, frames.Repr
      ensures Valid() && fresh(frames.Repr - old(frames.Repr))
      ensures Grown(m0, free0, tables, frames.Entries())
      ensures if code == 0 && !halted then size <= 2 && MapsPage(m0, tables, cr3, linear, size, addr, options)
                                           && Read(tables, cr3, linear, 3 - size) ==
                                             Some(PageEntry(addr, size, options))
              else SameMapping(m0, tables, cr3)
      ensures !halted ==> code == if size <= 2 && Open(m0, cr3, linear, 3 - size) then 0 else 1
      ensures halted ==> NoneUsable(frames.Entries(), 0)
      ensures |tables| <= |old(tables)| + 2
      ensures halted <==> Missing(old(tables), cr3, linear, size, 1) > |FreePages(old(frames.Entries()))|
      ensures Paid(old(tables), old(frames.Entries()), Missing(old(tables), cr3, linear, size, 1))
    {
      hide *;
      ghost var m1, free1 := tables, frames.Entries();
      code := 1;
      var L2, L3;
      L2, halted := Follow(L1, Idx(1, linear), linear, 1, m0, free0, size);
      PaidFor(m1, free1, Missing(m1, cr3, linear, size, 1));
      if halted {
        return;
      }
      if L2.Some? && size == 1 && !Present(Word(tables, L2.value, Idx(2, linear))) {
        StoredHere(tables, cr3, linear, size);
        StoreLeaf(L2.value, addr, linear, size, options, m0, free0);
        PaidFor(m1, free1, Missing(m1, cr3, linear, size, 1));
        return 0, false;
      }
      L3, halted := Follow(L2, Idx(2, linear), linear, 2, m0, free0, size);
      PaidFor(m1, free1, Missing(m1, cr3, linear, size, 1));
      StoredHere(tables, cr3, linear, 0);
      if halted {
        return;
      }
      if L3.Some? && size == 0 && !Present(Word(tables, L3.value, Idx(3, linear))) {
        StoreLeaf(L3.value, addr, linear, size, options, m0, free0);
        PaidFor(m1, free1, Missing(m1, cr3, linear, size, 1));
        return 0, false;
      }
    }

    /** Since the tables were m, only empty tables were added, and none that could matter to a page
        around w below level k. */
    ghost predicate Since(m: Tables, free: seq<Entry>, w: nat, k: nat)
      reads this`tables, frames`tree
    {
      && SameMapping(m, tables, cr3) && Grown(m, free, tables, frames.Entries())
      && (forall K :: k < K <= 3 ==> (Open(tables, cr3, w, K) <==> Open(m, cr3, w, K)))
    }

    /** `page_entry` on the way to w, and what the next table says about mapping a page there. */
    method Follow(PT: Option<nat>, idx: nat, ghost w: nat, ghost k: nat, ghost m: Tables, ghost free: seq<Entry>,
        ghost size: nat) returns (next: Option<nat>, halted: bool)
      requires Valid() && k < 3 && PT == Table(tables, cr3, w, k) && idx == Idx(k, w) && Since(m, free, w, k)
      requires PT.None? ==> !Open(m, cr3, w, k + 1) && (k < 2 ==> !Open(m, cr3, w, k + 2))
      requires k == 0 || PT.None? || size != 3 - k || Present(Word(tables, PT.value, idx))
      modifies this`tables, this`places, frames, frames.Repr
      ensures Valid() && fresh(frames.Repr - old(frames.Repr)) && Since(m, free, w, k + 1)
      ensures !halted ==> next == Table(tables, cr3, w, k + 1)
      ensures !halted ==> (next.Some? && !Present(Word(tables, next.value, Idx(k + 1, w))) <==> Open(m, cr3, w, k + 1))
      ensures !halted && k == 0 ==> next.Some?
      ensures !halted && next.None? && k < 2 ==> !Open(m, cr3, w, k + 2)
      ensures (halted ==> NoneUsable(frames.Entries(), 0)) && |tables| <= |old(tables)| + 1
      ensures if halted then |FreePages(old(frames.Entries()))| == |FreePages(frames.Entries())| == 0
                             && Missing(old(tables), cr3, w, size, k) > 0 && |tables| == |old(tables)|
              else
                && |FreePages(frames.Entries())| - Missing(tables, cr3, w, size, k + 1) ==
                   |FreePages(old(frames.Entries()))| - Missing(old(tables), cr3, w, size, k)
                && |tables| + |FreePages(frames.Entries())| == |old(tables)| + |FreePages(old(frames.Entries()))|
    {
      ghost var m1, free1 := tables, frames.Entries();
      if k == 0 { RootLeads(w); } else { Blocked(m1, cr3, w, k); }
      next, halted := page_entry(PT, idx, w, k);
      SameAfter(m, m1, tables, cr3);
      GrownAfter(m, free, m1, free1, tables, frames.Entries());
      if !halted { Decides(w, k + 1); }
      Counted(m1, free1, w, k, size, PT, next, halted);
    }

    /** What a round of the walk takes and leaves to be made. */
    lemma Counted(m: Tables, free: seq<Entry>, w: nat, k: nat, size: nat, PT: Option<nat>, next: Option<nat>,
        halted: bool)
      requires k < 3 && PT == Table(m, cr3, w, k)
      requires k == 0 || PT.None? || size != 3 - k || Present(Word(m, PT.value, Idx(k, w)))
      requires if PT.Some? && !Present(Word(m, PT.value, Idx(k, w))) then AddsOne(m, free, w, k, next, halted)
               else !halted && tables == m && frames.Entries() == free
      ensures if halted then |FreePages(free)| == |FreePages(frames.Entries())| == 0
                             && Missing(m, cr3, w, size, k) > 0 && |tables| == |m|
              else
                && |FreePages(frames.Entries())| - Missing(tables, cr3, w, size, k + 1) ==
                   |FreePages(free)| - Missing(m, cr3, w, size, k)
                && |tables| + |FreePages(frames.Entries())| == |m| + |FreePages(free)|
    {
      hide Word, Idx, FreePages;
      if PT.Some? && !Present(Word(m, PT.value, Idx(k, w))) && !halted {
        OneTableLess(m, tables, cr3, w, size, k, next.value);
      }
    }

    /** Since the tables were m and the free map free, that many frames were taken for tables, or all that were left. */
    ghost predicate Paid(m: Tables, free: seq<Entry>, n: nat)
      reads this`tables, frames`tree
    {
      && |FreePages(frames.Entries())| == (if n > |FreePages(free)| then 0 else |FreePages(free)| - n)
      && |tables| + |FreePages(frames.Entries())| == |m| + |FreePages(free)|
    }

    lemma PaidFor(m: Tables, free: seq<Entry>, n: nat)
      ensures Paid(m, free, n) <==>
        && |FreePages(frames.Entries())| == (if n > |FreePages(free)| then 0 else |FreePages(free)| - n)
        && |tables| + |FreePages(frames.Entries())| == |m| + |FreePages(free)|
    {
    }

    lemma SinceNow(w: nat)
      ensures Since(tables, frames.Entries(), w, 0)
    {
      NothingAdded(tables, frames.Entries());
    }

    lemma RootTable()
      requires Valid()
      ensures forall w :: Table(tables, cr3, w, 0) == Some(cr3)
    {
    }

    lemma RootLeads(w: nat)
      requires Valid()
      ensures !(Present(Word(tables, cr3, Idx(0, w))) && Large(Word(tables, cr3, Idx(0, w))))
    {
      assert Child(tables, places, cr3, Idx(0, w));
    }

    /** With its table there, the entry of level k decides whether a page of that level can be mapped. */
    lemma {:induction false} Decides(w: nat, k: nat)
      requires Valid() && 1 <= k <= 3
      ensures Table(tables, cr3, w, k).Some? ==>
                (Open(tables, cr3, w, k) <==> !Present(Word(tables, Table(tables, cr3, w, k).value, Idx(k, w))))
    {
      if Table(tables, cr3, w, k).Some? {
        forall j | 1 <= j < k ensures Read(tables, cr3, w, j).Some? && Leads(j, Read(tables, cr3, w, j).value) {
          OnTheWay(tables, cr3, w, j, k);
        }
      }
    }

    /** The store of `linear_mapping`, into the table of the level that the page size asks for. */
    method StoreLeaf(f: nat, addr: nat, linear: nat, size: nat, options: nat, ghost m0: Tables, ghost free0: seq<Entry>)
      requires Valid() && size <= 2 && options % 2 == 1 && addr < REACH
      requires Table(tables, cr3, linear, 3 - size) == Some(f) && Since(m0, free0, linear, 3 - size)
      modifies this`tables
      ensures Valid() && Grown(m0, free0, tables, frames.Entries())
      ensures MapsPage(m0, tables, cr3, linear, size, addr, options)
      ensures Read(tables, cr3, linear, 3 - size) == Some(PageEntry(addr, size, options)) && |tables| == |old(tables)|
    {
      ghost var m, k := tables, 3 - size;
      TableInTree(m, places, cr3, linear, k);
      var e := PageEntry(addr, size, options);
      PageEntryMeans(addr, size, options);
      PageEntryRights(addr, size, options);
      StoredLeaf(m, places, cr3, f, addr, linear, size, options, e);
      tables := Put(tables, f, Idx(3 - size, linear), e);
      MapsAfter(m0, m, tables, cr3, linear, size, addr, options);
      GrownAfter(m0, free0, m, frames.Entries(), tables, frames.Entries());
    }

    /** `linear_unmapping`, with `~0xFFF` where page.c:222 writes `!0xFFF`: the size of the page that
        was mapped, or 0xFF. */
    method linear_unmapping(linear: nat) returns (size: nat)
      requires Valid()
      modifies this`tables
      ensures Valid() && tables.Keys == old(tables).Keys
      ensures match old(Translate(linear)) {
                case None => size == 0xFF && tables == old(tables)
                case Some(page) => size == page.size <= 2 && ClearsPage(old(tables), tables, cr3, linear, size)
              }
    {
      WalkStepByStep(tables, cr3, linear);
      hide Valid, Table, Read, Look, Decode, Idx, Word, Frame, ClearsPage, Present, Large;
      var e0 := Word(tables, cr3, Idx(0, linear));
      if !Present(e0) {
        return 0xFF;
      }
      var L1 := Frame(e0);
      var e1 := Word(tables, L1, Idx(1, linear));
      if !Present(e1) {
        return 0xFF;
      }
      if Large(e1) {
        Unstore(L1, linear, 2);
        return 2;
      }
      var L2 := Frame(e1);
      var e2 := Word(tables, L2, Idx(2, linear));
      if !Present(e2) {
        return 0xFF;
      }
      if Large(e2) {
        Unstore(L2, linear, 1);
        return 1;
      }
      var L3 := Frame(e2);
      if !Present(Word(tables, L3, Idx(3, linear))) {
        return 0xFF;
      }
      Unstore(L3, linear, 0);
      return 0;
    }

    /** `PT[idx] ^= 1` on an entry that maps a page. */
    method Unstore(f: nat, linear: nat, size: nat)
      requires Valid() && size <= 2 && Table(tables, cr3, linear, 3 - size) == Some(f)
        && Mapped(tables, cr3, linear, 3 - size)
      modifies this`tables
      ensures Valid() && tables.Keys == old(tables).Keys
      ensures ClearsPage(old(tables), tables, cr3, linear, size)
    {
      hide *;
      IsValid();
      var i := Idx(3 - size, linear);
      MappedWord(tables, places, cr3, f, linear, 3 - size);
      var e := tables[f][i] - 1;
      StoredClear(tables, places, cr3, f, linear, size, e);
      tables := Put(tables, f, i, e);
      SameTables(old(tables), tables, f, i, e, frames.Entries());
      IsValid();
    }
  }

  lemma IsHealthy(frames: MemoryMap)
    requires Healthy(frames)
    ensures Normal(frames.Entries()) && NoWrap(frames.Entries())
  {
  }

  lemma OnePageTaken(m: Tables, free: seq<Entry>, now: seq<Entry>, page: nat, count: nat)
    requires Normal(free) && NoWrap(free) && Separate(m, free) && InReach(free)
    requires Takes(free, 0, 1, page, count) && Without(free, now, page, page + Bytes(count, 0))
    ensures count == 1 && page % 0x1000 == 0 && page !in m && Separate(m, now) && page < REACH && InReach(now)
    ensures Without(free, now, page, page + 0x1000) && AllIn(free, page, page + 0x1000)
    ensures |FreePages(now)| + 1 == |FreePages(free)|
  {
    TakesLowest(free, 0, 1, page, count, 0);
    assert Has(free, page);
    hide FreePages, Takes;
    PageTaken(free, now, page);
    assert Frame(page) == page && InTable(m, page) ==> false;
  }

  /** Where the entry is stored no table is made, nor behind the last level. */
  lemma StoredHere(m: Tables, root: nat, w: nat, size: nat)
    ensures size <= 2 && Table(m, root, w, 3 - size).Some?
            && !Present(Word(m, Table(m, root, w, 3 - size).value, Idx(3 - size, w))) ==>
              Missing(m, root, w, size, 3 - size) == 0
    ensures forall n :: Missing(m, root, w, n, 3) == 0
  {
  }

  /** The walk to v ends at level k, at a present entry. */
  ghost predicate Mapped(m: Tables, root: nat, v: nat, k: nat) {
    Read(m, root, v, k).Some? && Present(Read(m, root, v, k).value) && (k < 3 ==> Large(Read(m, root, v, k).value))
  }

  /** What is stored at its end has bit 0 set. */
  lemma {:induction false} MappedWord(m: Tables, at: Places, root: nat, f: nat, v: nat, k: nat)
    requires TableTree(m, at, root) && k <= 3 && Table(m, root, v, k) == Some(f) && Mapped(m, root, v, k)
    ensures f in m && |m[f]| == 512 && m[f][Idx(k, v)] > 0 && !Present(m[f][Idx(k, v)] - 1)
  {
    TableInTree(m, at, root, v, k);
    TableSize(m, at, root, f);
    BelowPresent(m[f][Idx(k, v)]);
    hide Table, Idx, TableTree, Present, Large;
  }

  lemma BelowPresent(e: nat)
    ensures Present(e) ==> e > 0 && !Present(e - 1)
  {
    if Present(e) {
      var q := e / 2;
      assert e - 1 == 2 * q;
      Even(q);
    }
  }

  /** A store leaves the frames of the tables as they are. */
  lemma SameTables(m: Tables, m': Tables, f: nat, i: nat, e: nat, free: seq<Entry>)
    requires f in m && i < |m[f]| && m' == Put(m, f, i, e)
    ensures m'.Keys == m.Keys && (Separate(m, free) ==> Separate(m', free))
  {
  }

  lemma StoredLeaf(m: Tables, at: Places, root: nat, f: nat, addr: nat, linear: nat, size: nat, options: nat, e: nat)
    requires TableTree(m, at, root) && size <= 2 && Table(m, root, linear, 3 - size) == Some(f)
    requires Present(e) && (size > 0 ==> Large(e)) && Address(e) == addr - PageOffset(addr, size)
    requires (Writes(e) <==> options / 2 % 2 == 1) && (Runs(e) <==> options / 4 % 2 == 1)
    ensures f in m && |m[f]| == 512
    ensures MapsPage(m, Put(m, f, Idx(3 - size, linear), e), root, linear, size, addr, options)
    ensures TableTree(Put(m, f, Idx(3 - size, linear), e), at, root)
    ensures Read(Put(m, f, Idx(3 - size, linear), e), root, linear, 3 - size) == Some(e)
  {
    var k := 3 - size;
    TableInTree(m, at, root, linear, k);
    StoreReads(m, at, root, linear, k, e, linear);
    StoreKeepsTree(m, at, root, f, Idx(k, linear), e);
    hide TableTree, Look, Table, Idx, Same, Word, PageOffset, Address, Present, Large, Put, Writes, Runs, Target;
    forall v: nat ensures Look(Put(m, f, Idx(k, linear), e), root, v) ==
        if Same(v, linear, k) then Some(Target(addr, size, options, v)) else Look(m, root, v)
    {
      StoredAt(m, at, root, f, addr, linear, size, options, e, v);
    }
  }

  /** The same for one address. */
  lemma StoredAt(m: Tables, at: Places, root: nat, f: nat, addr: nat, linear: nat, size: nat, options: nat, e: nat,
      v: nat)
    requires TableTree(m, at, root) && size <= 2 && Table(m, root, linear, 3 - size) == Some(f)
    requires Present(e) && (size > 0 ==> Large(e)) && Address(e) == addr - PageOffset(addr, size)
    requires (Writes(e) <==> options / 2 % 2 == 1) && (Runs(e) <==> options / 4 % 2 == 1)
    ensures f in m && |m[f]| == 512
    ensures Look(Put(m, f, Idx(3 - size, linear), e), root, v) ==
            if Same(v, linear, 3 - size) then Some(Target(addr, size, options, v)) else Look(m, root, v)
  {
    hide TableTree, Look, Table, Idx, Same, Word, PageOffset, Address, Present, Large, Put, Writes, Runs;
    if Same(v, linear, 3 - size) {
      StoreMaps(m, at, root, linear, 3 - size, e, v);
    } else {
      StoreElsewhere(m, at, root, linear, 3 - size, e, v);
    }
  }

  lemma StoredClear(m: Tables, at: Places, root: nat, f: nat, linear: nat, size: nat, e: nat)
    requires TableTree(m, at, root) && size <= 2 && Table(m, root, linear, 3 - size) == Some(f) && !Present(e)
    ensures f in m && |m[f]| == 512
    ensures ClearsPage(m, Put(m, f, Idx(3 - size, linear), e), root, linear, size)
    ensures TableTree(Put(m, f, Idx(3 - size, linear), e), at, root)
  {
    var k := 3 - size;
    TableInTree(m, at, root, linear, k);
    StoreKeepsTree(m, at, root, f, Idx(k, linear), e);
    hide TableTree, Look, Table, Idx, Same, Word, Present, Put;
    forall v: nat ensures Look(Put(m, f, Idx(k, linear), e), root, v) ==
        if Same(v, linear, k) then None else Look(m, root, v)
    {
      if Same(v, linear, k) {
        StoreClears(m, at, root, linear, k, e, v);
      } else {
        StoreElsewhere(m, at, root, linear, k, e, v);
      }
    }
  }

  /** A frame taken from the free map and added to the tables. */
  lemma AddedTable(m: Tables, free: seq<Entry>, m': Tables, free': seq<Entry>, l: nat)
    requires Separate(m, free) && m'.Keys == m.Keys + {l} && l % 0x1000 == 0
    requires Without(free, free', l, l + 0x1000) && AllIn(free, l, l + 0x1000)
    ensures Separate(m', free') && Grown(m, free, m', free') && (InReach(free) ==> InReach(free'))
  {
    forall x: int ensures InTable(m', x) <==> InTable(m, x) || l <= x < l + 0x1000 {
      if x >= 0 { SameFrame(x, l); }
    }
  }

  lemma {:induction false} Blocked(m: Tables, root: nat, w: nat, k: nat)
    requires 1 <= k < 3
    ensures Table(m, root, w, k).Some? && Present(Word(m, Table(m, root, w, k).value, Idx(k, w)))
              && Large(Word(m, Table(m, root, w, k).value, Idx(k, w))) ==>
              forall K :: k <= K <= 3 ==> !Open(m, root, w, K)
  {
    if Table(m, root, w, k).Some? && Present(Word(m, Table(m, root, w, k).value, Idx(k, w)))
       && Large(Word(m, Table(m, root, w, k).value, Idx(k, w))) {
      LargeIsNotOpen(m, root, w, k);
    }
  }

  lemma NothingMapped(m: Tables, root: nat)
    ensures SameMapping(m, m, root)
  {
  }

  lemma TableAdded(m: Tables, at: Places, root: nat, w: nat, k: nat, l: nat, f: nat, idx: nat)
    requires TableTree(m, at, root) && k < 3 && Some(f) == Table(m, root, w, k) && idx == Idx(k, w) && l !in m
      && l % 0x1000 == 0 && l < REACH
    requires !Present(Word(m, f, idx))
    ensures f in m && |m[f]| == 512 && idx < 512 && f in m[l := Zeros()] && |m[l := Zeros()][f]| == 512
    ensures var m' := Put(m[l := Zeros()], f, idx, l + 3);
            && TableTree(m', at[l := Place(k + 1, f, idx)], root) && m'.Keys == m.Keys + {l} && |m'| == |m| + 1
            && Table(m', root, w, k + 1) == Some(l) && SameMapping(m, m', root) && Word(m', l, Idx(k + 1, w)) == 0
            && (forall K :: k < K <= 3 ==> Open(m', root, w, K) && Open(m, root, w, K))
  {
    TableInTree(m, at, root, w, k);
    hide TableTree, Table, Idx, Look, Open;
    ExtendedTree(m, at, root, w, k, l);
    forall K | k < K <= 3 ensures Open(Extended(m, root, w, k, l), root, w, K) && Open(m, root, w, K) {
      ExtendedOpen(m, at, root, w, k, l, K);
    }
    forall v: nat ensures Look(Extended(m, root, w, k, l), root, v) == Look(m, root, v) {
      ExtendedSame(m, at, root, w, k, l, v);
    }
  }

  lemma SameAfter(m0: Tables, m1: Tables, m2: Tables, root: nat)
    requires SameMapping(m0, m1, root) && SameMapping(m1, m2, root)
    ensures SameMapping(m0, m2, root)
  {
  }

  lemma MapsAfter(m0: Tables, m1: Tables, m2: Tables, root: nat, w: nat, size: nat, addr: nat, options: nat)
    requires size <= 2 && SameMapping(m0, m1, root) && MapsPage(m1, m2, root, w, size, addr, options)
    ensures MapsPage(m0, m2, root, w, size, addr, options)
  {
  }

  lemma GrownAfter(m0: Tables, f0: seq<Entry>, m1: Tables, f1: seq<Entry>, m2: Tables, f2: seq<Entry>)
    requires Grown(m0, f0, m1, f1) && (Grown(m1, f1, m2, f2) || (f2 == f1 && m2.Keys == m1.Keys))
    ensures Grown(m0, f0, m2, f2)
  {
  }

  lemma NothingAdded(m: Tables, free: seq<Entry>)
    ensures Grown(m, free, m, free)
  {
  }

  lemma SameFrame(x: nat, l: nat)
    requires l % 0x1000 == 0
    ensures Frame(x) == l <==> l <= x < l + 0x1000
  {
    var q := l / 0x1000;
    if l <= x < l + 0x1000 { Low12(q, x - l); }
  }

  // ---------------------------------------------------------------- page.c:222 as it is written

  /** With `!0xFFF`, which is 0, the entry of a 4K page is looked for, and cleared, in the frame at physical address
      0. */
  function StoreAsWritten(m: Tables, w: nat): Tables {
    if 0 in m && Idx(3, w) < |m[0]| && Present(m[0][Idx(3, w)]) then Put(m, 0, Idx(3, w), m[0][Idx(3, w)] - 1) else m
  }

  /** The walk to v reads word i of the frame at physical address 0. */
  ghost predicate Through(m: Tables, root: nat, v: nat, i: nat) {
    exists k: nat :: k <= 3 && Reads(m, root, v, k, i)
  }

  ghost predicate Reads(m: Tables, root: nat, v: nat, k: nat, i: nat) {
    Table(m, root, v, k) == Some(0) && Idx(k, v) == i
  }

  /** So unmapping a 4K page does what it should just when the walk to it reads that word of frame 0, and nothing else
      is mapped through it. */
  lemma UnmapAsWritten(m: Tables, at: Places, root: nat, w: nat)
    requires TableTree(m, at, root) && Look(m, root, w).Some? && Look(m, root, w).value.size == 0
    ensures ClearsPage(m, StoreAsWritten(m, w), root, w, 0) <==>
            && Through(m, root, w, Idx(3, w))
            && forall v: nat :: Through(m, root, v, Idx(3, w)) && Look(m, root, v).Some? ==> Same(v, w, 3)
  {
    hide TableTree, Look, Same, Idx, Through, StoreAsWritten;
    forall v: nat ensures Look(StoreAsWritten(m, w), root, v) == if Through(m, root, v, Idx(3, w)) then None
      else Look(m, root, v) {
      SeenAsWritten(m, at, root, w, v);
    }
    forall v: nat | Same(v, w, 3) ensures Through(m, root, v, Idx(3, w)) <==> Through(m, root, w, Idx(3, w)) {
      SameThrough(m, root, v, w, Idx(3, w));
    }
    assert Same(w, w, 3) by { SameItself(w); }
  }

  lemma SameItself(w: nat)
    ensures Same(w, w, 3)
  {
  }

  lemma SameThrough(m: Tables, root: nat, v: nat, w: nat, i: nat)
    requires Same(v, w, 3)
    ensures Through(m, root, v, i) <==> Through(m, root, w, i)
  {
    forall k: nat | k <= 3 ensures Reads(m, root, v, k, i) <==> Reads(m, root, w, k, i) {
      SameTable(m, root, v, w, k);
    }
  }

  /** What the store does to the translation of v. */
  lemma SeenAsWritten(m: Tables, at: Places, root: nat, w: nat, v: nat)
    requires TableTree(m, at, root)
    ensures Look(StoreAsWritten(m, w), root, v) == if Through(m, root, v, Idx(3, w)) then None else Look(m, root, v)
  {
    hide Look, Idx, TableTree, StoreAsWritten, Reads;
    if Through(m, root, v, Idx(3, w)) {
      var k: nat :| k <= 3 && Reads(m, root, v, k, Idx(3, w));
      SeenThrough(m, at, root, w, v, k);
    } else {
      hide Through;
      SameWalk(m, root, w, v, 0);
      SameWalk(m, root, w, v, 1);
      SameWalk(m, root, w, v, 2);
      SameWalk(m, root, w, v, 3);
      SameReads(m, StoreAsWritten(m, w), root, v);
    }
  }

  lemma SameReads(m: Tables, m': Tables, root: nat, v: nat)
    requires forall k: nat :: k <= 3 ==> Read(m', root, v, k) == Read(m, root, v, k)
    ensures Look(m', root, v) == Look(m, root, v)
  {
    hide Read;
  }

  lemma SeenThrough(m: Tables, at: Places, root: nat, w: nat, v: nat, k: nat)
    requires TableTree(m, at, root) && k <= 3 && Reads(m, root, v, k, Idx(3, w))
    ensures Look(StoreAsWritten(m, w), root, v) == None
  {
    hide Look, Idx, TableTree, StoreAsWritten, Present, Table, Put;
    TableInTree(m, at, root, v, k);
    TableSize(m, at, root, 0);
    var e := Cleared(m, w);
    StoreBelow(m, at, root, v, k, e, v, k);
    PutThere(m, 0, Idx(3, w), e);
    NothingMappedBehind(StoreAsWritten(m, w), root, v, k);
  }

  lemma TableSize(m: Tables, at: Places, root: nat, f: nat)
    requires TableTree(m, at, root) && f in m
    ensures |m[f]| == 512
  {
  }

  /** The word that is left there. */
  lemma Cleared(m: Tables, w: nat) returns (e: nat)
    requires 0 in m && |m[0]| == 512
    ensures !Present(e) && StoreAsWritten(m, w) == Put(m, 0, Idx(3, w), e)
  {
    hide Idx;
    e := m[0][Idx(3, w)];
    if Present(e) {
      e := e - 1;
    } else {
      assert m[0][Idx(3, w) := e] == m[0];
      assert Put(m, 0, Idx(3, w), e) == m;
    }
  }

  lemma PutThere(m: Tables, f: nat, i: nat, e: nat)
    requires f in m && i < |m[f]|
    ensures Word(Put(m, f, i, e), f, i) == e
  {
  }

  /** A walk that comes to an entry that is not present finds nothing. */
  lemma NothingMappedBehind(m: Tables, root: nat, v: nat, k: nat)
    requires k <= 3 && Read(m, root, v, k).Some? && !Present(Read(m, root, v, k).value)
    ensures Look(m, root, v) == None
  {
    forall j | 1 <= j < k ensures Read(m, root, v, j).Some? && Leads(j, Read(m, root, v, j).value) {
      OnTheWay(m, root, v, j, k);
    }
    NoneBehind(m, root, v, k, 4);
  }

  /** With an empty root table nothing is mapped. */
  lemma NothingMappedYet(v: nat)
    ensures Look(map[0x1000 := Zeros()], 0x1000, v) == None
  {
    assert Read(map[0x1000 := Zeros()], 0x1000, v, 0) == Some(0);
    NothingMappedBehind(map[0x1000 := Zeros()], 0x1000, v, 0);
  }

  lemma {:induction false} SameWalk(m: Tables, root: nat, w: nat, v: nat, k: nat)
    requires !Through(m, root, v, Idx(3, w)) && k <= 3
    ensures var m' := StoreAsWritten(m, w);
      Table(m', root, v, k) == Table(m, root, v, k) && Read(m', root, v, k) == Read(m, root, v, k)
    decreases k
  {
    if k > 0 { SameWalk(m, root, w, v, k - 1); }
    assert !Reads(m, root, v, k, Idx(3, w));
  }

  /** Four tables, and behind their first entries the page of address 0. */
  function FourTables(): Tables {
    var z := Zeros();
    map[0x1000 := z[0 := 0x2003], 0x2000 := z[0 := 0x3003], 0x3000 := z[0 := 0x4003], 0x4000 := z[0 := 0x5003]]
  }

  function FourPlaces(): Places {
    map[0x1000 := Place(0, 0, 0), 0x2000 := Place(1, 0x1000, 0), 0x3000 := Place(2, 0x2000, 0),
      0x4000 := Place(3, 0x3000, 0)]
  }

  lemma FourTree()
    ensures TableTree(FourTables(), FourPlaces(), 0x1000)
  {
    var m := FourTables();
    EntryOf(0x2000);
    EntryOf(0x3000);
    EntryOf(0x4000);
    hide Present, Large, Frame;
    assert !Present(0) by { Even(0); }
    forall f, i | f in m && 0 <= i < |m[f]| ensures Child(m, FourPlaces(), f, i) {
      assert i > 0 ==> m[f][i] == 0;
    }
  }

  lemma FourWords()
    ensures var m := FourTables();
            && Word(m, 0x1000, Idx(0, 0)) == 0x2003 && Word(m, 0x2000, Idx(1, 0)) == 0x3003
            && Word(m, 0x3000, Idx(2, 0)) == 0x4003 && Word(m, 0x4000, Idx(3, 0)) == 0x5003
  {
  }

  lemma FourWalk()
    ensures Look(FourTables(), 0x1000, 0) == Some(EntryPage(0x5003, 0, 0))
  {
    hide Table, Read, Word, FourTables, Idx, Present, Large, Frame, Address;
    FourWords();
    EntryOf(0x2000);
    EntryOf(0x3000);
    EntryOf(0x4000);
    EntryOf(0x5000);
    WalkStepByStep(FourTables(), 0x1000, 0);
  }

  /** With no table in frame 0, the page of address 0 stays mapped. */
  lemma UnmapAsWrittenFails()
    ensures TableTree(FourTables(), FourPlaces(), 0x1000)
    ensures Look(FourTables(), 0x1000, 0) == Some(Page(0x5000, 0, true, true))
    ensures StoreAsWritten(FourTables(), 0) == FourTables() && !ClearsPage(FourTables(), FourTables(), 0x1000, 0, 0)
  {
    hide Look, TableTree, Idx;
    FourTree();
    FourWalk();
    SameItself(0);
  }
}
