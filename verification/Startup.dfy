/** From the firmware's memory map to a running memory manager: EFI/main.c:576-639 writes the list, setup_paging of
    BIOS/STBR64.C takes page tables and frames out of it, setup_paging of KERNEL/SOURCE/memory/page.c loads the rest,
    and `SetupVirtualMemory` follows. */
module Startup {
  import opened Intervals
  import opened AvlTree
  import opened MemoryMaps
  import opened Physical
  import opened PageWalk
  import opened Paging
  import opened Frames
  import opened Space
  import opened VirtualMemories
  import opened PageFaults
  import opened CommittedPages
  import opened DirectMaps
  import BootLoader
  import EfiMemoryMap

  // ---------------------------------------------------------------- one list, two readers

  const DWORDS: nat := 0x1_0000_0000

  /** What the loader sees of a region: flag and extended flag are one word to it. */
  function AsRange(r: EfiMemoryMap.Region): BootLoader.Range {
    BootLoader.Range(r.A, r.L, r.F + DWORDS * r.X)
  }

  function AsRegion(r: BootLoader.Range): EfiMemoryMap.Region {
    EfiMemoryMap.Region(r.A, r.S, r.F % DWORDS, r.F / DWORDS)
  }

  function AsRanges(rs: seq<EfiMemoryMap.Region>): (t: seq<BootLoader.Range>)
    ensures |t| == |rs| && forall i :: 0 <= i < |rs| ==> t[i] == AsRange(rs[i])
  {
    seq(|rs|, i requires 0 <= i < |rs| => AsRange(rs[i]))
  }

  function AsRegions(rs: seq<BootLoader.Range>): (t: seq<EfiMemoryMap.Region>)
    ensures |t| == |rs| && forall i :: 0 <= i < |rs| ==> t[i] == AsRegion(rs[i])
  {
    seq(|rs|, i requires 0 <= i < |rs| => AsRegion(rs[i]))
  }

  lemma SmallFlag(f: nat, x: nat)
    requires f < DWORDS
    ensures (f + DWORDS * x) % DWORDS == f
  {
  }

  /** The loader finds free just what was written as free. */
  lemma RangesMean(rs: seq<EfiMemoryMap.Region>, end: nat)
    requires EfiMemoryMap.InOrder(rs, end) && forall i :: 0 <= i < |rs| ==> rs[i].F < 0x100 && rs[i].X == 0
    ensures BootLoader.Apart(AsRanges(rs))
    ensures forall x: int :: BootLoader.IsFree(AsRanges(rs), x) <==> EfiMemoryMap.HasClass(rs, x, 1)
  {
    var t := AsRanges(rs);
    forall i | 0 <= i < |t| ensures BootLoader.Free(t[i]) <==> rs[i].F == 1 {
      SmallFlag(rs[i].F, 0);
    }
    EfiMemoryMap.InOrderLoadable(rs, end);
    assert BootLoader.Apart(t) by {
      forall i, x: int | 0 <= i < |t| ensures BootLoader.Holds(t[i], x) <==> EfiMemoryMap.Inside(rs[i], x) {}
    }
    forall x: int ensures BootLoader.IsFree(t, x) <==> EfiMemoryMap.HasClass(rs, x, 1) {
      BootLoader.FreeAt(t, x);
      ClassAt(rs, x);
      forall i | 0 <= i < |t| ensures BootLoader.Holds(t[i], x) <==> EfiMemoryMap.Inside(rs[i], x) {}
    }
  }

  lemma ClassAt(rs: seq<EfiMemoryMap.Region>, x: int)
    ensures EfiMemoryMap.HasClass(rs, x, 1) <==>
      exists i :: 0 <= i < |rs| && rs[i].F == 1 && EfiMemoryMap.Inside(rs[i], x)
  {
    if EfiMemoryMap.HasClass(rs, x, 1) {
      var r :| r in rs && EfiMemoryMap.Inside(r, x) && r.F == 1;
      var i :| 0 <= i < |rs| && rs[i] == r;
    }
    if i :| 0 <= i < |rs| && rs[i].F == 1 && EfiMemoryMap.Inside(rs[i], x) {
      assert rs[i] in rs;
    }
  }

  /** The kernel loads just what the loader left free, out of a list that may hold empty regions and gaps at its end. */
  lemma RegionsMean(rs: seq<BootLoader.Range>)
    requires BootLoader.Apart(rs)
    ensures EfiMemoryMap.Loadable(AsRegions(rs))
    ensures forall x: int :: EfiMemoryMap.HasClass(AsRegions(rs), x, 1) <==> BootLoader.IsFree(rs, x)
  {
    var t := AsRegions(rs);
    forall i, x: int | 0 <= i < |t| ensures EfiMemoryMap.Inside(t[i], x) <==> BootLoader.Holds(rs[i], x) {}
    forall i | 0 <= i < |t| ensures t[i].F == 1 <==> BootLoader.Free(rs[i]) {}
    forall x: int ensures EfiMemoryMap.HasClass(t, x, 1) <==> BootLoader.IsFree(rs, x) {
      BootLoader.FreeAt(rs, x);
      ClassAt(t, x);
    }
  }

  // ---------------------------------------------------------------- the tables of the loader

  /** The root with the direct map and the kernel behind it, four pages of 1G, and the sixteen frames. */
  ghost function BootTables(L1: nat, L2: nat, L2k: nat, L3: nat, leaves: seq<nat>): Tables {
    var z := Zeros();
    map[L1 := z[0x100 := L2 + 3][0x1FF := L2k + 3],
      L2 := z[0 := 0x183][1 := 0x4000_0183][2 := 0x8000_0183][3 := 0xC000_0183],
        L2k := z[0x1FF := L3 + 3], L3 := leaves]
  }

  ghost function BootPlaces(L1: nat, L2: nat, L2k: nat, L3: nat): Places {
    map[L1 := Place(0, 0, 0), L2 := Place(1, L1, 0x100), L2k := Place(1, L1, 0x1FF), L3 := Place(2, L2k, 0x1FF)]
  }

  ghost predicate FourPages(L1: nat, L2: nat, L2k: nat, L3: nat) {
    && L1 % 0x1000 == 0 && L2 % 0x1000 == 0 && L2k % 0x1000 == 0 && L3 % 0x1000 == 0
    && L1 < REACH && L2 < REACH && L2k < REACH && L3 < REACH
    && L1 != L2 && L1 != L2k && L1 != L3 && L2 != L2k && L2 != L3 && L2k != L3
  }

  /** Sixteen entries of the last table map 2M pages; the others map nothing. */
  ghost predicate Leaves2M(leaves: seq<nat>) {
    && |leaves| == 512
    && forall i :: 0 <= i < 512 ==>
         if BootLoader.Slot(i) then leaves[i] % 0x20_0000 == 0x183 && leaves[i] < REACH else leaves[i] == 0
  }

  lemma LeafEntry(e: nat)
    requires e % 0x20_0000 == 0x183
    ensures Present(e) && Large(e)
  {
    var q := e / 0x20_0000;
    assert e == 0x80 * (0x4000 * q + 3) + 3;
    Low7(0x4000 * q + 3, 3);
    Parity(0x40 * (0x4000 * q + 3) + 1, 1);
    Parity(0x2000 * q + 1, 1);
  }

  /** They are a tree, no two ways leading to the same table. */
  lemma BootTree(L1: nat, L2: nat, L2k: nat, L3: nat, leaves: seq<nat>)
    requires FourPages(L1, L2, L2k, L3) && Leaves2M(leaves)
    ensures TableTree(BootTables(L1, L2, L2k, L3, leaves), BootPlaces(L1, L2, L2k, L3), L1)
  {
    var m, at := BootTables(L1, L2, L2k, L3, leaves), BootPlaces(L1, L2, L2k, L3);
    EntryOf(L2);
    EntryOf(L2k);
    EntryOf(L3);
    assert !Present(0) by { Even(0); }
    forall k | k == 0x183 || k == 0x4000_0183 || k == 0x8000_0183 || k == 0xC000_0183 ensures Large(k) {
      LeafEntry(k);
    }
    hide Present, Large, Frame;
    forall f, i | f in m && 0 <= i < |m[f]| ensures Child(m, at, f, i) {
      if f == L1 {
        assert i != 0x100 && i != 0x1FF ==> m[f][i] == 0;
      } else if f == L2 {
        assert i >= 4 ==> m[f][i] == 0;
      } else if f == L2k {
        assert i != 0x1FF ==> m[f][i] == 0;
      } else {
        assert m[f][i] == leaves[i];
        if BootLoader.Slot(i) { LeafEntry(leaves[i]); }
      }
    }
  }

  // ---------------------------------------------------------------- what they map

  /** The direct map: the low 4G of memory at the start of the upper half. */
  const HALF: nat := 0x8000_0000_0000
  /** The last 1G of the address space, where the kernel is. */
  const TOP: nat := 0xFFFF_C000_0000

  /** Where the loader's tables lead the 48 bits of v, and what may be done there. */
  ghost predicate Leads48(leaves: seq<nat>, v: nat, p: Option<Page>)
    requires |leaves| == 512
  {
    var u := v % SPACE;
    if HALF <= u < HALF + 0x1_0000_0000 then p == Some(Page(u - HALF, 2, true, true))
    else if u >= TOP && BootLoader.Slot((u - TOP) / 0x20_0000) then
      && p.Some? && p.value.size == 1 && p.value.write && p.value.exec
      && p.value.at == leaves[(u - TOP) / 0x20_0000] - 0x183 + (u - TOP) % 0x20_0000
    else p == None
  }

  /** The word that maps v says present, writable, large and global, and nothing else. */
  ghost predicate LeafWord(m: Tables, root: nat, v: nat) {
    match Look(m, root, v)
    case None => true
    case Some(p) => p.size <= 2 && match Read(m, root, v, 3 - p.size) {
      case None => false
      case Some(e) => e % 0x1000 == 0x183
    }
  }

  /** What the loader has mapped, everywhere. */
  ghost predicate AsLoaded(m: Tables, root: nat, leaves: seq<nat>)
    requires |leaves| == 512
  {
    forall v: nat :: Leads48(leaves, v, Look(m, root, v)) && LeafWord(m, root, v)
  }

  /** Memory below 4G is found at its place in the direct map. */
  lemma DirectMap(m: Tables, root: nat, leaves: seq<nat>, p: nat)
    requires |leaves| == 512 && AsLoaded(m, root, leaves) && p < 0x1_0000_0000
    ensures physical_mapping(m, root, 0xFFFF_8000_0000_0000 + p) == Some(p)
  {
    hide Look;
    WalkByTables(m, root, 0xFFFF_8000_0000_0000 + p);
    Upper(HALF + p);
    assert Leads48(leaves, 0xFFFF_8000_0000_0000 + p, Look(m, root, 0xFFFF_8000_0000_0000 + p));
  }

  /** The first and the last 16M of the last 1G lie in the sixteen frames. */
  lemma KernelMap(m: Tables, root: nat, leaves: seq<nat>, i: nat, o: nat)
    requires |leaves| == 512 && AsLoaded(m, root, leaves) && BootLoader.Slot(i) && o < 0x20_0000
    ensures var r := physical_mapping(m, root, 0xFFFF_FFFF_C000_0000 + 0x20_0000 * i + o);
            r.Some? && r.value == leaves[i] - 0x183 + o
  {
    hide Look;
    var v := 0xFFFF_FFFF_C000_0000 + 0x20_0000 * i + o;
    WalkByTables(m, root, v);
    Upper(TOP + 0x20_0000 * i + o);
    assert (0x20_0000 * i + o) / 0x20_0000 == i && (0x20_0000 * i + o) % 0x20_0000 == o;
    assert Leads48(leaves, v, Look(m, root, v));
  }

  lemma LoadedStraight(m: Tables, root: nat, leaves: seq<nat>)
    requires |leaves| == 512 && AsLoaded(m, root, leaves)
    ensures Straight(m, root)
  {
    hide Look;
    forall v: nat | STATIC_LO <= v < WINDOW_LO && Look(m, root, v).Some? ensures Unmoved(v, Look(m, root, v).value) {
      Upper(v - HIGH);
      assert Leads48(leaves, v, Look(m, root, v));
    }
  }

  lemma Upper(u: nat)
    requires u < SPACE
    ensures (0xFFFF_0000_0000_0000 + u) % SPACE == u
  {
  }

  lemma BootWords(L1: nat, L2: nat, L2k: nat, L3: nat, leaves: seq<nat>, v: nat)
    requires FourPages(L1, L2, L2k, L3) && |leaves| == 512
    ensures var m := BootTables(L1, L2, L2k, L3, leaves);
            && Word(m, L1, Idx(0, v)) == (if Idx(0, v) == 0x100 then L2 + 3 else if Idx(0, v) == 0x1FF then L2k + 3
              else 0)
            && Word(m, L2, Idx(1, v)) == (if Idx(1, v) < 4 then 0x4000_0000 * Idx(1, v) + 0x183 else 0)
            && Word(m, L2k, Idx(1, v)) == (if Idx(1, v) == 0x1FF then L3 + 3 else 0)
            && Word(m, L3, Idx(2, v)) == leaves[Idx(2, v)]
  {
    hide Idx;
  }

  /** The walk through them. */
  lemma BootLook(L1: nat, L2: nat, L2k: nat, L3: nat, leaves: seq<nat>, v: nat)
    requires FourPages(L1, L2, L2k, L3) && Leaves2M(leaves)
    ensures Look(BootTables(L1, L2, L2k, L3, leaves), L1, v) ==
      if Idx(0, v) == 0x100 && Idx(1, v) < 4 then Some(EntryPage(0x4000_0000 * Idx(1, v) + 0x183, v, 2))
      else if Idx(0, v) == 0x1FF && Idx(1, v) == 0x1FF && BootLoader.Slot(Idx(2, v))
        then Some(EntryPage(leaves[Idx(2, v)], v, 1))
      else None
    ensures var m := BootTables(L1, L2, L2k, L3, leaves);
            && (Idx(0, v) == 0x100 && Idx(1, v) < 4 ==> Read(m, L1, v, 1) == Some(0x4000_0000 * Idx(1, v) + 0x183))
            && (Idx(0, v) == 0x1FF && Idx(1, v) == 0x1FF && BootLoader.Slot(Idx(2, v)) ==>
              Read(m, L1, v, 2) == Some(leaves[Idx(2, v)]))
  {
    BootWords(L1, L2, L2k, L3, leaves, v);
    EntryOf(L2);
    EntryOf(L2k);
    EntryOf(L3);
    assert !Present(0) by { Even(0); }
    GigaEntry(Idx(1, v));
    LeafEntry(0x4000_0000 * Idx(1, v) + 0x183);
    if BootLoader.Slot(Idx(2, v)) { LeafEntry(leaves[Idx(2, v)]); }
    WalkStepByStep(BootTables(L1, L2, L2k, L3, leaves), L1, v);
    hide BootTables, Idx, Present, Large, Frame, Word, EntryPage, Read, Table;
  }

  lemma GigaEntry(i: nat)
    ensures (0x4000_0000 * i + 0x183) % 0x20_0000 == 0x183
  {
  }

  /** In addresses. */
  lemma BootMaps(L1: nat, L2: nat, L2k: nat, L3: nat, leaves: seq<nat>, v: nat)
    requires FourPages(L1, L2, L2k, L3) && Leaves2M(leaves)
    ensures Leads48(leaves, v, Look(BootTables(L1, L2, L2k, L3, leaves), L1, v))
    ensures LeafWord(BootTables(L1, L2, L2k, L3, leaves), L1, v)
  {
    BootLook(L1, L2, L2k, L3, leaves, v);
    Regions48(v);
    var i, k := Idx(1, v), Idx(2, v);
    if Idx(0, v) == 0x100 && i < 4 {
      LeafPage(0x4_0000 * i, v, 2);
      Low12(0x4_0000 * i, 0x183);
    } else if Idx(0, v) == 0x1FF && i == 0x1FF && BootLoader.Slot(k) {
      LeafPage(0x200 * (leaves[k] / 0x20_0000), v, 1);
      Low12(0x200 * (leaves[k] / 0x20_0000), 0x183);
    }
    hide Idx, Look, EntryPage, BootTables, Read;
  }

  /** Which addresses have the indices of the direct map, and which those of the last 1G. */
  lemma Regions48(v: nat)
    ensures var u := v % SPACE;
            && (HALF <= u < HALF + 0x1_0000_0000 <==> Idx(0, v) == 0x100 && Idx(1, v) < 4)
            && (u >= TOP <==> Idx(0, v) == 0x1FF && Idx(1, v) == 0x1FF)
            && (Idx(0, v) == 0x100 ==> u == HALF + 0x4000_0000 * Idx(1, v) + v % 0x4000_0000)
            && (u >= TOP ==> (u - TOP) / 0x20_0000 == Idx(2, v) && (u - TOP) % 0x20_0000 == v % 0x20_0000)
  {
    Split48(v);
    var u, a, b, c, g, r := v % SPACE, Idx(0, v), Idx(1, v), Idx(2, v), v % 0x4000_0000, v % 0x20_0000;
    hide Idx;
    assert u >= TOP ==> u - TOP == 0x20_0000 * c + r;
    RestMega(c, r);
  }

  /** The indices and what is left, as parts of the 48 bits. */
  lemma Split48(v: nat)
    ensures var u := v % SPACE;
            && u == 0x80_0000_0000 * Idx(0, v) + 0x4000_0000 * Idx(1, v) + v % 0x4000_0000
            && u == 0x80_0000_0000 * Idx(0, v) + 0x4000_0000 * Idx(1, v) + 0x20_0000 * Idx(2, v) + v % 0x20_0000
            && v % 0x20_0000 < 0x20_0000 && v % 0x4000_0000 < 0x4000_0000
  {
    hide Idx;
    Digits(v);
    LowGiga(0x4_0000 * (v / SPACE), v % SPACE);
    assert SPACE * (v / SPACE) == 0x4000_0000 * (0x4_0000 * (v / SPACE));
    LowMega(v / SPACE, v % SPACE);
  }

  lemma LowMega(q: nat, u: nat)
    ensures (SPACE * q + u) % 0x20_0000 == u % 0x20_0000
  {
    var d, r := u / 0x20_0000, u % 0x20_0000;
    assert SPACE * q + u == 0x20_0000 * (0x800_0000 * q + d) + r;
    RestMega(0x800_0000 * q + d, r);
  }

  lemma RestMega(q: nat, r: nat)
    requires r < 0x20_0000
    ensures (0x20_0000 * q + r) % 0x20_0000 == r && (0x20_0000 * q + r) / 0x20_0000 == q
  {
  }

  /** What an entry of the loader maps v to. */
  lemma LeafPage(q: nat, v: nat, size: nat)
    requires q < 0x8000_0000_0000
    ensures EntryPage(0x1000 * q + 0x183, v, size) == Page(0x1000 * q + PageOffset(v, size), size, true, true)
  {
    LeafBits(q, 0x183, 0);
    Parity(0x400 * q + 0x60, 1);
    assert (0x1000 * q + 0x183) / 2 == 0x800 * q + 0xC1;
  }

  /** No page of the windows is mapped. */
  lemma NoWindowPage(L1: nat, L2: nat, L2k: nat, L3: nat, leaves: seq<nat>, v: nat)
    requires FourPages(L1, L2, L2k, L3) && Leaves2M(leaves) && WINDOW_LO <= v < WINDOW_HI
    ensures Look(BootTables(L1, L2, L2k, L3, leaves), L1, v) == None
  {
    BootMaps(L1, L2, L2k, L3, leaves, v);
    Upper(v - HIGH);
    hide Look, BootTables;
  }

  /** BIOS/STBR64.C:424-470 and 530: the stores into the tables; the low half of the root is cleared once the stack has
      moved. */
  method LinkTables(L1: nat, L2: nat, L2k: nat, L3: nat, leaves: seq<nat>) returns (m: Tables)
    requires FourPages(L1, L2, L2k, L3) && |leaves| == 512
    ensures m == BootTables(L1, L2, L2k, L3, leaves)
  {
    m := map[L1 := Zeros()];
    m := m[L2 := Zeros()];
    m := Put(m, L1, 0x100, L2 + 3);
    m := Put(m, L1, 0, m[L1][0x100]);
    m := Put(m, L2, 0, 0x183);
    m := Put(m, L2, 1, 0x4000_0183);
    m := Put(m, L2, 2, 0x8000_0183);
    m := Put(m, L2, 3, 0xC000_0183);
    ghost var z: seq<nat> := Zeros();
    hide Zeros;
    assert m[L1] == z[0x100 := L2 + 3][0 := L2 + 3];
    assert m[L2] == z[0 := 0x183][1 := 0x4000_0183][2 := 0x8000_0183][3 := 0xC000_0183];
    m := m[L2k := Zeros()];
    m := Put(m, L1, 0x1FF, L2k + 3);
    m := m[L3 := Zeros()];
    m := Put(m, L2k, 0x1FF, L3 + 3);
    m := m[L3 := leaves];
    m := Put(m, L1, 0, 0);
    assert m[L1] == z[0x100 := L2 + 3][0x1FF := L2k + 3];
  }

  // ---------------------------------------------------------------- the whole

  /** x is a byte of one of the tables, or of the frames behind the last of them. */
  ghost predicate Taken(tables: seq<nat>, leaves: seq<nat>, x: int)
    requires |leaves| == 512
  {
    BootLoader.InTables(tables, x) || BootLoader.InFrames(leaves, 0, 8, x)
      || BootLoader.InFrames(leaves, 0x1F8, 0x200, x)
  }

  /** Four tables, and in the last of them sixteen frames: all of memory that was described as free, no two the same. */
  ghost predicate Linked(was: seq<BootLoader.Range>, now: seq<BootLoader.Range>, tables: seq<nat>, leaves: seq<nat>) {
    && |leaves| == 512 && |tables| == 4 && BootLoader.GoodTables(was, tables)
    && BootLoader.SixteenFrames(was, now, leaves, tables)
    && (forall i :: 8 <= i < 0x1F8 ==> leaves[i] == 0)
  }

  lemma LinkedMeans(was: seq<BootLoader.Range>, now: seq<BootLoader.Range>, tables: seq<nat>, leaves: seq<nat>)
    requires Linked(was, now, tables, leaves) && forall x: int :: BootLoader.IsFree(was, x) ==> x < REACH
    ensures FourPages(tables[0], tables[1], tables[2], tables[3]) && Leaves2M(leaves)
  {
    hide BootLoader.IsFree;
    forall j | 0 <= j < 4 ensures tables[j] < REACH {
      assert BootLoader.InPage(tables[j], tables[j]);
      assert BootLoader.IsFree(was, tables[j]);
    }
    forall i | 0 <= i < 512 && BootLoader.Slot(i) ensures leaves[i] % 0x20_0000 == 0x183 && leaves[i] < REACH {
      assert BootLoader.Frame(was, now, leaves[i]) && BootLoader.InFrame(leaves[i], leaves[i] - 0x183);
      Below2M(leaves[i]);
    }
  }

  lemma Below2M(e: nat)
    requires e % 0x20_0000 == 0x183 && e - 0x183 < REACH
    ensures e < REACH
  {
  }

  /** What the memory manager starts from. */
  ghost function BootState(tables: seq<nat>, leaves: seq<nat>, frames: seq<Entry>): State
    requires |tables| == 4
  {
    State([Entry(WINDOW_LO, SPACE_HI - WINDOW_LO, 0)], [], [],
          BootTables(tables[0], tables[1], tables[2], tables[3], leaves), frames)
  }

  /** No free byte lies in a table, and the windows own no frame yet. */
  lemma StartsApart(tables: seq<nat>, leaves: seq<nat>, frames: seq<Entry>)
    requires |tables| == 4 && FourPages(tables[0], tables[1], tables[2], tables[3]) && Leaves2M(leaves)
    requires forall x :: Has(frames, x) ==> x < REACH && !BootLoader.InTables(tables, x)
    ensures var s, m := BootState(tables, leaves, frames),
      BootTables(tables[0], tables[1], tables[2], tables[3], leaves);
            && s == State([Entry(WINDOW_LO, SPACE_HI - WINDOW_LO, 0)], [], [], m, frames) && s.m == m
            && TableTree(s.m, BootPlaces(tables[0], tables[1], tables[2], tables[3]), tables[0])
            && Separate(s.m, frames) && Owned(s.m, tables[0], frames)
            && AsLoaded(s.m, tables[0], leaves) && MappedAsCommitted(s, tables[0]) && CommittedReserved(s)
  {
    var s := BootState(tables, leaves, frames);
    BootTree(tables[0], tables[1], tables[2], tables[3], leaves);
    forall x | Has(frames, x) ensures !InTable(s.m, x) {
      forall j | 0 <= j < 4 ensures x >= 0 ==> Frame(x) != tables[j] {
        if x >= 0 { SameFrame(x, tables[j]); }
        assert BootLoader.InPage(tables[j], x) ==> BootLoader.InTables(tables, x);
      }
    }
    hide Look;
    forall v: nat ensures Leads48(leaves, v, Look(s.m, tables[0], v)) && LeafWord(s.m, tables[0], v) {
      BootMaps(tables[0], tables[1], tables[2], tables[3], leaves, v);
    }
    forall v: nat | WINDOW_LO <= v < WINDOW_HI ensures Look(s.m, tables[0], v) == None {
      NoWindowPage(tables[0], tables[1], tables[2], tables[3], leaves, v);
    }
  }

  /** The loader halts: it has taken some of the tables and frames, and no range that is left suits what it asks for
      next. */
  ghost predicate Halts(ds: seq<EfiMemoryMap.Descriptor>, tables: seq<nat>, leaves: seq<nat>,
      left: seq<BootLoader.Range>) {
    && |leaves| == 512 && |tables| <= 4 && BootLoader.NoneSuits(left, if |tables| < 4 then 0 else 1)
    && exists low: nat, high: nat :: HaltsAt(ds, tables, leaves, left, low, high)
  }

  ghost predicate HaltsAt(ds: seq<EfiMemoryMap.Descriptor>, tables: seq<nat>, leaves: seq<nat>,
      left: seq<BootLoader.Range>, low: nat, high: nat)
    requires |leaves| == 512
  {
    && low <= 8 && 0x1F8 <= high <= 0x200 && (|tables| < 4 || low < 8 || high < 0x200)
    && forall x: int :: BootLoader.IsFree(left, x) <==>
         EfiMemoryMap.DescribedAs(ds, x, 1) && !BootLoader.InTables(tables, x)
         && !BootLoader.InFrames(leaves, 0, low, x) && !BootLoader.InFrames(leaves, 0x1F8, high, x)
  }

  lemma ItHalts(ds: seq<EfiMemoryMap.Descriptor>, was: seq<BootLoader.Range>, left: seq<BootLoader.Range>,
      tables: seq<nat>, leaves: seq<nat>, low: nat, high: nat)
    requires |leaves| == 512 && |tables| <= 4 && BootLoader.NoneSuits(left, if |tables| < 4 then 0 else 1)
    requires low <= 8 && 0x1F8 <= high <= 0x200 && (|tables| < 4 || low < 8 || high < 0x200)
    requires BootLoader.Spent(was, left, tables, leaves, low, high)
    requires forall x: int :: BootLoader.IsFree(was, x) <==> EfiMemoryMap.DescribedAs(ds, x, 1)
    ensures Halts(ds, tables, leaves, left)
  {
    hide BootLoader.IsFree, EfiMemoryMap.DescribedAs, BootLoader.InTables, BootLoader.InFrames, BootLoader.NoneSuits;
    assert HaltsAt(ds, tables, leaves, left, low, high);
  }

  lemma ListIsApart(boot: BootLoader.BootMap)
    requires boot.Valid()
    ensures BootLoader.Apart(boot.map0)
  {
  }

  lemma IsLinked(was: seq<BootLoader.Range>, now: seq<BootLoader.Range>, tables: seq<nat>, leaves: seq<nat>)
    requires |leaves| == 512 && |tables| == 4 && BootLoader.GoodTables(was, tables)
    requires BootLoader.SixteenFrames(was, now, leaves, tables) && forall i :: 8 <= i < 0x1F8 ==> leaves[i] == 0
    ensures Linked(was, now, tables, leaves)
  {
  }

  lemma WhatIsLeft(ds: seq<EfiMemoryMap.Descriptor>, was: seq<BootLoader.Range>, now: seq<BootLoader.Range>,
      tables: seq<nat>, leaves: seq<nat>)
    requires |leaves| == 512 && BootLoader.Spent(was, now, tables, leaves, 8, 0x200)
    requires forall x: int :: BootLoader.IsFree(was, x) <==> EfiMemoryMap.DescribedAs(ds, x, 1)
    ensures forall x: int :: BootLoader.IsFree(now, x) <==>
      EfiMemoryMap.DescribedAs(ds, x, 1) && !Taken(tables, leaves, x)
    ensures forall x: int :: Taken(tables, leaves, x) || !BootLoader.InTables(tables, x)
  {
    hide BootLoader.IsFree, EfiMemoryMap.DescribedAs, BootLoader.InTables, BootLoader.InFrames;
  }

  /** The boot: it halts only when no range suits what the loader asks for next. Otherwise the memory manager starts
      with exactly the memory free that the firmware described as such, less four page tables and sixteen frames; no
      free byte lies in a table; and the books are right. */
  method Start(map0: array<EfiMemoryMap.Descriptor>, count: nat, regions: array<EfiMemoryMap.Region>, L3: array<nat>)
      returns (vm: VirtualMemory?, tables: seq<nat>, ghost given: seq<BootLoader.Range>,
        ghost left: seq<BootLoader.Range>)
    requires 0 < count <= map0.Length && regions.Length > count && EfiMemoryMap.Disjoint(map0[..count])
    requires exists d :: d in map0[..count] && d.A == 0
    requires forall x: int :: EfiMemoryMap.DescribedAs(map0[..count], x, 1) ==> x < REACH
    requires L3.Length == 512
    modifies map0, regions, L3
    ensures forall x: int :: BootLoader.IsFree(given, x) <==> EfiMemoryMap.DescribedAs(old(map0[..count]), x, 1)
    ensures vm == null ==> Halts(old(map0[..count]), tables, L3[..], left)
    ensures vm != null ==> |tables| == 4 && Linked(given, left, tables, L3[..]) && vm.paging.cr3 == tables[0]
    ensures vm != null ==>
      fresh(vm.fre) && fresh(vm.rsv) && fresh(vm.cmt) && fresh(vm.paging) && fresh(vm.paging.frames)
        && fresh(vm.Blocks())
    ensures vm != null ==> vm.Valid() && vm.Now() == BootState(tables, L3[..], vm.Now().frames)
    ensures vm != null ==> AsLoaded(vm.Now().m, tables[0], L3[..])
    ensures vm != null ==> MappedAsCommitted(vm.Now(), tables[0]) && CommittedReserved(vm.Now())
    ensures vm != null ==> forall x: int :: Has(vm.Now().frames, x) <==>
      EfiMemoryMap.DescribedAs(old(map0[..count]), x, 1) && !Taken(tables, L3[..], x)
  {
    hide *;
    ghost var map0Was := map0[..count];
    var n := EfiMemoryMap.Prepare(map0, count, regions);
    ghost var end: nat :| EfiMemoryMap.InOrder(regions[..n], end);
    RangesMean(regions[..n], end);
    var boot := new BootLoader.BootMap(AsRanges(regions[..n]));
    given := boot.map0;
    var halted;
    ghost var low, high;
    halted, tables, low, high := BootLoader.setup_paging(boot, L3);
    left := boot.map0;
    if halted {
      ItHalts(map0Was, given, left, tables, L3[..], low, high);
      return null, tables, given, left;
    }
    ListIsApart(boot);
    RegionsMean(left);
    IsLinked(given, left, tables, L3[..]);
    LinkedMeans(given, left, tables, L3[..]);
    WhatIsLeft(map0Was, given, left, tables, L3[..]);
    var m := LinkTables(tables[0], tables[1], tables[2], tables[3], L3[..]);
    var frames := NoBlocks();
    EfiMemoryMap.LoadRegions(frames, AsRegions(boot.map0));
    StartsApart(tables, L3[..], frames.Entries());
    var paging := new PageTables(frames, tables[0], m, BootPlaces(tables[0], tables[1], tables[2], tables[3]));
    ghost var blocks := frames.Repr;
    assert fresh(blocks);
    vm := new VirtualMemory(paging);
    vm.Opened();
    vm.Parts();
    assert vm.Blocks() <= (vm.Blocks() - blocks) + blocks;
  }

  lemma TraceNotEmpty(trace: seq<State>, root: nat, events: seq<Event>)
    requires Trace(trace, root, events)
    ensures 1 <= |trace| <= |events| + 1
  {
  }

  /** From the firmware's map through any run of requests and page faults: every state is in order, what the direct map
      holds is at its place, and only committed pages are mapped, with their rights, and only reserved space is
      committed, just when no fault in dynamic space comes from an address that is not committed, and no request commits
      a range from beyond a reserved block. */
  method StartAndRun(map0: array<EfiMemoryMap.Descriptor>, count: nat, regions: array<EfiMemoryMap.Region>,
      L3: array<nat>, events: seq<Event>)
      returns (started: bool, running: bool, tables: seq<nat>, ghost trace: seq<State>,
      ghost left: seq<BootLoader.Range>, ghost last: State)
    requires 0 < count <= map0.Length && regions.Length > count && EfiMemoryMap.Disjoint(map0[..count])
    requires exists d :: d in map0[..count] && d.A == 0
    requires forall x: int :: EfiMemoryMap.DescribedAs(map0[..count], x, 1) ==> x < REACH
    requires L3.Length == 512
    modifies map0, regions, L3
    ensures !started ==> Halts(old(map0[..count]), tables, L3[..], left)
    ensures started ==> |tables| == 4 && Trace(trace, tables[0], events) && (running ==> |trace| == |events| + 1)
    ensures started && !running ==>
      |trace| <= |events| && Stops(trace[|trace| - 1], last, tables[0], events[|trace| - 1])
    ensures started ==> AlwaysStraight(trace, tables[0])
    ensures started ==> (AllCommitted(trace, tables[0]) <==> AllHit(trace, tables[0], events))
    ensures started ==> (AllReserved(trace) <==> NoneStrays(trace, tables[0], events))
    ensures started ==> 1 <= |trace| && forall x: int :: Has(trace[0].frames, x) <==>
      EfiMemoryMap.DescribedAs(old(map0[..count]), x, 1) && !Taken(tables, L3[..], x)
  {
    hide *;
    var vm;
    ghost var given;
    vm, tables, given, left := Start(map0, count, regions, L3);
    started, running, trace := vm != null, false, [];
    last := State([], [], [], map[], []);
    if vm != null {
      running, trace := Run(vm, events);
      last := vm.Now();
      TraceNotEmpty(trace, tables[0], events);
      LoadedStraight(trace[0].m, tables[0], L3[..]);
      RunStraight(trace, tables[0], events);
      RunKeepsIff(trace, tables[0], events);
      RunBooksIff(trace, tables[0], events);
    }
  }
}
