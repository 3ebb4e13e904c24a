/** KERNEL/SOURCE/memory/virtual.c: reserving, committing, uncommitting and freeing virtual memory, and the page
    faults of KERNEL/SOURCE/memory/page.c that use it. */
module VirtualMemories {
  import opened Intervals
  import opened AvlTree
  import opened MemoryMaps
  import opened Physical
  import opened PageWalk
  import opened Paging
  import opened Regions
  import opened Frames
  import opened Release
  import opened Uncommit
  import opened Space

  // ---------------------------------------------------------------- taking a range out of the free map

  /** es with the bytes from lo up to hi taken out of block k. */
  ghost function Split(es: seq<Entry>, k: nat, lo: nat, hi: nat): seq<Entry>
    requires k < |es|
  {
    Replace(es, k, k + 1, Rest(es[k], lo, hi))
  }

  lemma SplitHealthy(es: seq<Entry>, k: nat, lo: nat, hi: nat)
    requires Normal(es) && NoWrap(es) && Plain(es) && k < |es| && es[k].A <= lo < hi <= Bound(es[k])
    ensures Normal(Split(es, k, lo, hi)) && NoWrap(Split(es, k, lo, hi)) && Plain(Split(es, k, lo, hi))
    ensures Without(es, Split(es, k, lo, hi), lo, hi)
  {
    ShrunkNormal(es, k, lo - es[k].A);
    ShrunkBytes(es, k, lo - es[k].A);
    if hi == Bound(es[k]) {
      NoTail(es, k, lo, hi);
    } else {
      TailHealthy(es, k, lo, hi);
    }
  }

  lemma TailHealthy(es: seq<Entry>, k: nat, lo: nat, hi: nat)
    requires Normal(es) && NoWrap(es) && Plain(es) && k < |es| && es[k].A <= lo < hi < Bound(es[k])
    requires var r := Shrunk(es, k, lo - es[k].A);
      Normal(r) && NoWrap(r) && Plain(r) && Without(es, r, lo, Bound(es[k]))
    ensures Normal(Split(es, k, lo, hi)) && NoWrap(Split(es, k, lo, hi)) && Plain(Split(es, k, lo, hi))
    ensures Without(es, Split(es, k, lo, hi), lo, hi)
  {
    var r := Shrunk(es, k, lo - es[k].A);
    var p := if lo > es[k].A then k + 1 else k;
    var b := Entry(hi, Bound(es[k]) - hi, es[k].V);
    TailSeat(es, k, lo, hi);
    TailPut(es, k, lo, hi, r, p);
    forall x | hi <= x < Bound(es[k]) ensures Has(es, x) {
      assert es[k].Covers(x);
    }
    var e := es[k];
    hide Shrunk, Rest, Split, Normal, NoWrap;
    assert e.V == 0 && Bound(e) < QWORDS by { Reach(es, k); }
    assert Split(es, k, lo, hi) == Replace(r, p, p, [b]) by { IsSplit(es, k, lo, hi); }
    SeatedHealthy(r, p, b);
  }

  lemma IsSplit(es: seq<Entry>, k: nat, lo: nat, hi: nat)
    requires k < |es|
    ensures Split(es, k, lo, hi) == Replace(es, k, k + 1, Rest(es[k], lo, hi))
  {
  }

  lemma Reach(es: seq<Entry>, k: nat)
    requires NoWrap(es) && Plain(es) && k < |es|
    ensures es[k].V == 0 && Bound(es[k]) < QWORDS
  {
  }

  lemma SeatedHealthy(r: seq<Entry>, p: nat, b: Entry)
    requires Normal(r) && NoWrap(r) && Plain(r) && p <= |r| && b.S > 0 && b.V == 0 && Bound(b) < QWORDS
    requires (p > 0 ==> Bound(r[p - 1]) < b.A) && (p < |r| ==> Bound(b) < r[p].A)
    ensures var t := Replace(r, p, p, [b]); Normal(t) && NoWrap(t) && Plain(t) && With(r, t, b.A, Bound(b))
  {
    NormalReplace(r, p, p, b);
    hide Normal, NoWrap;
    forall x ensures Has(Replace(r, p, p, [b]), x) <==> Has(r, x) || b.A <= x < Bound(b) {
      HasReplace(r, p, p, [b], x);
      HasOne(b, x);
      assert r[p..p] == [];
    }
  }

  /** Where the tail goes. */
  lemma TailSeat(es: seq<Entry>, k: nat, lo: nat, hi: nat)
    requires Normal(es) && k < |es| && es[k].A <= lo < hi < Bound(es[k])
    ensures var r, p := Shrunk(es, k, lo - es[k].A), if lo > es[k].A then k + 1 else k;
      && p <= |r| && Splits(r, hi, p) && Splits(r, lo + 1, p)
      && (p > 0 ==> Bound(r[p - 1]) < hi) && (p < |r| ==> Bound(es[k]) < r[p].A)
    ensures forall i :: k < i < |es| ==> Bound(es[k]) <= es[i].A
  {
    forall i | 0 <= i < |es| ensures (i < k ==> Bound(es[i]) < es[k].A) && (k < i ==> Bound(es[k]) < es[i].A) {
      InOrder(es, i, k);
      InOrder(es, k, i);
    }
    var r := Shrunk(es, k, lo - es[k].A);
    forall i | 0 <= i < |r|
      ensures r[i] == if lo > es[k].A then (if i == k then Entry(es[k].A, lo - es[k].A, es[k].V) else es[i])
                      else es[if i < k then i else i + 1] {}
  }

  /** virtual.c:151-186: the free block around a range is cut down to what lies below, and a new one gets what
      lies above. */
  method TakeRange(fre: MemoryMap, address: nat, pagedSize: nat) returns (ok: bool)
    requires Healthy(fre) && pagedSize > 0 && address + pagedSize < QWORDS
    modifies fre, fre.Repr
    ensures Healthy(fre) && fresh(fre.Repr - old(fre.Repr))
    ensures ok <==> AllIn(old(fre.Entries()), address, address + pagedSize)
    ensures if ok then Without(old(fre.Entries()), fre.Entries(), address, address + pagedSize)
            else fre.Entries() == old(fre.Entries())
  {
    hide *;
    ghost var es := fre.Entries();
    var region;
    ghost var k;
    region, k := FloorOf(fre, address, pagedSize);
    if region == null || region.A > address + pagedSize || region.A + region.S < address + pagedSize {
      return false;
    }
    SplitRegion(fre, region, k, address, address + pagedSize);
    SplitsWell(fre, es, k, address, address + pagedSize);
    return true;
  }

  lemma SplitsWell(map0: MemoryMap, es: seq<Entry>, k: nat, lo: nat, hi: nat)
    requires map0.Valid() && Normal(es) && NoWrap(es) && Plain(es) && k < |es| && es[k].A <= lo < hi <= Bound(es[k])
    requires map0.Entries() == Split(es, k, lo, hi)
    ensures Healthy(map0) && Without(es, map0.Entries(), lo, hi)
  {
    SplitHealthy(es, k, lo, hi);
  }

  /** The last block that starts at or below an address, and what it says about a range from there on. */
  method FloorOf(map0: MemoryMap, address: nat, pagedSize: nat) returns (region: MemoryBlock?, ghost k: nat)
    requires Healthy(map0) && pagedSize > 0
    ensures var es := map0.Entries();
      && Normal(es) && NoWrap(es) && Plain(es) && map0.Valid() && |map0.Items()| == |es|
      && (AllIn(es, address, address + pagedSize) <==> region != null && address + pagedSize <= region.A + region.S)
      && (if region == null then Splits(es, address + 1, 0)
          else
            && k < |es| && map0.Items()[k].n == region && es[k].A == region.A && es[k].V == 0
            && Bound(es[k]) == region.A + region.S < QWORDS && region.A <= address && Splits(es, address + 1, k + 1))
  {
    ghost var es := map0.Entries();
    NormalSorted(es);
    ghost var steps;
    region, k, steps := map0.SearchMemoryNode(address, 0);
    FloorHolds(es, k, address, address + pagedSize);
    if region != null {
      k := k - 1;
      map0.Holds(k);
    }
  }

  /** An entry was put in at position k. */
  ghost predicate PutAt(was: seq<Item>, now: seq<Item>, k: nat, e: Entry) {
    k <= |was| && |now| == |was| + 1 && now[..k] == was[..k] && now[k].e == e && now[k + 1..] == was[k..]
  }

  method SplitRegion(fre: MemoryMap, region: MemoryBlock, ghost k: nat, lo: nat, hi: nat)
    requires fre.Valid() && k < |fre.Items()| && fre.Items()[k].n == region && k < |fre.Entries()|
    requires Normal(fre.Entries()) && NoWrap(fre.Entries()) && Plain(fre.Entries())
    requires var e := fre.Entries()[k];
      e.A <= lo < hi <= Bound(e) && region.A == e.A && region.A + region.S == Bound(e) && e.V == 0
    modifies fre, fre.Repr
    ensures fre.Valid() && fresh(fre.Repr - old(fre.Repr))
    ensures fre.Entries() == Split(old(fre.Entries()), k, lo, hi)
  {
    hide MemoryMap.Valid, EntriesOf, Normal, NoWrap, Plain, Removed, Split, Replace, Rest;
    ghost var was := fre.Items();
    fre.Holds(k);
    var A0 := region.A;
    var S0 := region.S;
    fre.SetBlock(region, A0, lo - A0, k);
    ghost var mid := fre.Items();
    if A0 + S0 != hi {
      InsertBehind(fre, hi, A0 + S0 - hi, was, k, lo);
    }
    RemoveEmpty(fre, region, was, mid, k, lo, hi);
  }

  /** virtual.c:175-182: the block for what lies above the range. */
  method InsertBehind(fre: MemoryMap, hi: nat, size: nat, ghost was: seq<Item>, ghost k: nat, ghost lo: nat)
    requires fre.Valid() && k < |was| && Normal(EntriesOf(was)) && NoWrap(EntriesOf(was)) && Plain(EntriesOf(was))
    requires was[k].e.A <= lo < hi < Bound(was[k].e) == hi + size
    requires fre.Items() == was[k := Item(was[k].n, Entry(was[k].e.A, lo - was[k].e.A, was[k].e.V))]
    modifies fre, fre.Repr
    ensures fre.Valid() && fresh(fre.Repr - old(fre.Repr))
    ensures PutAt(old(fre.Items()), fre.Items(), k + 1, Entry(hi, size, 0))
  {
    ghost var es := fre.Entries();
    RoomBehind(EntriesOf(was), es, k, lo, hi, size);
    hide *;
    var block := new MemoryBlock(hi, size, 0);
    PutBehind(fre, block, k);
  }

  /** Between a block that has been cut down and its successor nothing touches a block put behind the range. */
  ghost predicate Room(es: seq<Entry>, b: Entry, k: nat) {
    && Strict(es) && NoWrap(es) && Absent(es, b.A) && Bound(b) < QWORDS
    && Splits(es, b.A, k + 1) && !TouchesLow(es, b, k + 1) && !TouchesHigh(es, b, k + 1)
  }

  lemma RoomBehind(was: seq<Entry>, es: seq<Entry>, k: nat, lo: nat, hi: nat, size: nat)
    requires Normal(was) && NoWrap(was) && k < |was| && was[k].A <= lo < hi < Bound(was[k]) == hi + size
    requires es == was[k := Entry(was[k].A, lo - was[k].A, was[k].V)]
    ensures Room(es, Entry(hi, size, 0), k)
  {
    forall i, j | 0 <= i < j < |was| ensures Bound(was[i]) < was[j].A && es[i].A < es[j].A {
      InOrder(was, i, j);
    }
  }

  method PutBehind(fre: MemoryMap, block: MemoryBlock, ghost k: nat)
    requires fre.Valid() && block !in fre.Repr && block.L == null && block.R == null
    requires Room(fre.Entries(), Entry(block.A, block.S, block.V), k)
    modifies fre, fre.Repr, block
    ensures fre.Valid() && fre.Repr <= old(fre.Repr) + {block} && k < |old(fre.Items())|
    ensures PutAt(old(fre.Items()), fre.Items(), k + 1, Entry(old(block.A), old(block.S), old(block.V)))
  {
    hide *;
    ghost var was, b := fre.Items(), Entry(block.A, block.S, block.V);
    RoomMeans(fre.Entries(), b, k);
    CellIs(block);
    EntriesAre(fre);
    fre.InsertMemoryNode(block, 1);
    IsPut(was, fre.Items(), k + 1, Item(block, b));
  }

  lemma {:induction false} RoomMeans(es: seq<Entry>, b: Entry, k: nat)
    requires Room(es, b, k)
    ensures Strict(es) && NoWrap(es) && Absent(es, b.A) && b.A + b.S < QWORDS && k < |es|
    ensures Rank(es, b.A) == k + 1 && Splits(es, b.A, k + 1) && Low(es, b, k + 1) == High(es, b, k + 1)
  {
    StrictSorted(es);
    SplitsOnce(es, b.A, k + 1, Rank(es, b.A));
    hide Strict, NoWrap, Absent, TouchesLow, TouchesHigh, Rank;
  }

  lemma CellIs(block: MemoryBlock)
    ensures CellOf(block).e == Entry(block.A, block.S, block.V)
  {
  }

  lemma EntriesAre(fre: MemoryMap)
    ensures |fre.Entries()| == |fre.Items()|
  {
  }

  lemma IsPut(was: seq<Item>, now: seq<Item>, k: nat, i: Item)
    requires k <= |was| && now == Replace(was, k, k, [i])
    ensures PutAt(was, now, k, i.e)
  {
  }

  /** virtual.c:183-186: a block of which nothing is left goes. */
  method RemoveEmpty(fre: MemoryMap, region: MemoryBlock, ghost was: seq<Item>, ghost mid: seq<Item>, ghost k: nat,
      ghost lo: nat, ghost hi: nat)
    requires fre.Valid() && k < |was| && was[k].n == region && was[k].e.A <= lo < hi <= Bound(was[k].e)
      && was[k].e.V == 0
    requires mid == was[k := Item(was[k].n, Entry(was[k].e.A, lo - was[k].e.A, was[k].e.V))]
    requires if hi == Bound(was[k].e) then fre.Items() == mid
             else PutAt(mid, fre.Items(), k + 1, Entry(hi, Bound(was[k].e) - hi, 0))
    modifies fre, fre.Repr
    ensures fre.Valid() && fresh(fre.Repr - old(fre.Repr))
    ensures fre.Entries() == Split(EntriesOf(was), k, lo, hi)
  {
    ghost var cut := fre.Items();
    assert k < |cut| && cut[k] == mid[k];
    fre.Holds(k);
    hide MemoryMap.Valid, Removed, Split;
    if region.S == 0 {
      ghost var rounds := fre.RemoveMemoryNode(region, k);
    }
    SplitDone(was, mid, cut, fre.Items(), k, lo, hi);
  }

  lemma SplitDone(was: seq<Item>, mid: seq<Item>, cut: seq<Item>, now: seq<Item>, k: nat, lo: nat, hi: nat)
    requires k < |was| && was[k].e.A <= lo < hi <= Bound(was[k].e) && was[k].e.V == 0
    requires mid == was[k := Item(was[k].n, Entry(was[k].e.A, lo - was[k].e.A, was[k].e.V))]
    requires if hi == Bound(was[k].e) then cut == mid
             else PutAt(mid, cut, k + 1, Entry(hi, Bound(was[k].e) - hi, 0))
    requires if lo == was[k].e.A then Removed(cut, now, k) else now == cut
    ensures EntriesOf(now) == Split(EntriesOf(was), k, lo, hi)
  {
    var es, e := EntriesOf(was), was[k].e;
    var low, tail := [Entry(e.A, lo - e.A, e.V)], if hi < Bound(e) then [Entry(hi, Bound(e) - hi, 0)] else [];
    assert EntriesOf(mid) == es[..k] + low + es[k + 1..];
    assert EntriesOf(cut) == es[..k] + low + tail + es[k + 1..] by { PutEntry(mid, cut, k, hi, e); }
    SplitParts(es, k, lo, hi, low, tail, EntriesOf(cut), EntriesOf(now));
  }

  lemma PutEntry(mid: seq<Item>, cut: seq<Item>, k: nat, hi: nat, e: Entry)
    requires k < |mid| && hi <= Bound(e)
    requires if hi == Bound(e) then cut == mid else PutAt(mid, cut, k + 1, Entry(hi, Bound(e) - hi, 0))
    ensures EntriesOf(cut) == EntriesOf(mid)[..k + 1] + (if hi < Bound(e) then [Entry(hi, Bound(e) - hi, 0)] else []) +
      EntriesOf(mid)[k + 1..]
  {
    if hi < Bound(e) {
      var n := k + 1;
      forall i | 0 <= i < |cut| && i != n ensures cut[i] == mid[if i < n then i else i - 1] {
        if i < n { assert cut[..n][i] == mid[..n][i]; } else { assert cut[n + 1..][i - n - 1] == mid[n..][i - n - 1]; }
      }
    }
  }

  lemma SplitParts(es: seq<Entry>, k: nat, lo: nat, hi: nat, low: seq<Entry>, tail: seq<Entry>, cut: seq<Entry>,
      now: seq<Entry>)
    requires k < |es| && es[k].A <= lo < hi <= Bound(es[k]) && es[k].V == 0 && low == [Entry(es[k].A, lo - es[k].A, 0)]
    requires tail == (if hi < Bound(es[k]) then [Entry(hi, Bound(es[k]) - hi, 0)] else [])
    requires cut == es[..k] + low + tail + es[k + 1..]
    requires now == if lo == es[k].A then RemoveAt(cut, k) else cut
    ensures now == Split(es, k, lo, hi)
  {
    if lo == es[k].A {
      assert cut[k + 1..] == tail + es[k + 1..] && cut[..k] == es[..k];
    }
  }
  lemma EmptyBooks()
    ensures var f := [Entry(WINDOW_LO, SPACE_HI - WINDOW_LO, 0)]; Books(f, [], []) && Normal(f) && NoWrap(f) && Plain(f)
  {
    var f := [Entry(WINDOW_LO, SPACE_HI - WINDOW_LO, 0)];
    forall x ensures Has(f, x) <==> WINDOW_LO <= x < SPACE_HI {
      HasOne(f[0], x);
    }
    forall x: int, y: int | x / 0x1000 == y / 0x1000 && Has(f, x) ensures Has(f, y) {
      SamePageSide(x, y, WINDOW_LO);
      SamePageSide(x, y, SPACE_HI);
    }
  }

  method NoBlocks() returns (m: MemoryMap)
    ensures Healthy(m) && m.Entries() == [] && m.Repr == {} && fresh(m)
  {
    m := new MemoryMap();
  }

  /** virtual.c:17-22. */
  method WholeWindow() returns (f: MemoryMap)
    ensures Healthy(f) && f.Entries() == [Entry(WINDOW_LO, SPACE_HI - WINDOW_LO, 0)] && fresh(f) && fresh(f.Repr)
  {
    f := NoBlocks();
    var block := new MemoryBlock(0xFFFF_9000_0000_0000, 0x1000_0000_0000, 0);
    ghost var es := f.Entries();
    hide MemoryMap.Valid, EntriesOf;
    f.InsertMemoryNode(block, 1);
    assert f.Entries() == [Entry(WINDOW_LO, SPACE_HI - WINDOW_LO, 0)];
    EmptyBooks();
  }

  // ---------------------------------------------------------------- the maps together

  class VirtualMemory {
    const paging: PageTables
    /** VTL_FRE, VTL_RSV and VTL_CMT. */
    const fre: MemoryMap
    const rsv: MemoryMap
    const cmt: MemoryMap

    /** `SetupVirtualMemory`: the whole window is free. */
    constructor (paging: PageTables)
      requires paging.Valid() && Owned(paging.tables, paging.cr3, paging.frames.Entries())
      ensures Valid() && this.paging == paging && fresh(Blocks() - paging.frames.Repr) && fresh({fre, rsv, cmt})
      ensures Now() == State([Entry(WINDOW_LO, SPACE_HI - WINDOW_LO, 0)], [], [], paging.tables,
        paging.frames.Entries())
    {
      hide *;
      var f := WholeWindow();
      var r := NoBlocks();
      var c := NoBlocks();
      this.paging, fre, rsv, cmt := paging, f, r, c;
      new;
      Started();
    }

    lemma Started()
      requires fre != rsv && fre != cmt && fre != paging.frames && rsv != cmt && rsv != paging.frames
        && cmt != paging.frames
      requires fre.Repr !! paging.frames.Repr && rsv.Repr == {} && cmt.Repr == {} && Healthy(fre) && Healthy(rsv)
        && Healthy(cmt)
      requires paging.Valid() && Owned(paging.tables, paging.cr3, paging.frames.Entries())
      requires fre.Entries() == [Entry(WINDOW_LO, SPACE_HI - WINDOW_LO, 0)] && rsv.Entries() == []
        && cmt.Entries() == []
      ensures Valid() && Blocks() == fre.Repr + paging.frames.Repr
      ensures Now() == State([Entry(WINDOW_LO, SPACE_HI - WINDOW_LO, 0)], [], [], paging.tables,
        paging.frames.Entries())
    {
      EmptyBooks();
    }

    ghost function Now(): State
      reads paging`tables, paging.frames`tree, fre`tree, rsv`tree, cmt`tree
    {
      State(fre.Entries(), rsv.Entries(), cmt.Entries(), paging.tables, paging.frames.Entries())
    }

    /** The nodes of all four trees. */
    ghost function Blocks(): set<MemoryBlock>
      reads fre`Repr, rsv`Repr, cmt`Repr, paging.frames`Repr
    {
      fre.Repr + rsv.Repr + cmt.Repr + paging.frames.Repr
    }

    /** Four trees, no two of which share a node. */
    ghost predicate Apart()
      reads fre`Repr, rsv`Repr, cmt`Repr, paging.frames`Repr
    {
      && fre != rsv && fre != cmt && fre != paging.frames && rsv != cmt && rsv != paging.frames && cmt != paging.frames
      && fre.Repr !! rsv.Repr && fre.Repr !! cmt.Repr && fre.Repr !! paging.frames.Repr
      && rsv.Repr !! cmt.Repr && rsv.Repr !! paging.frames.Repr && cmt.Repr !! paging.frames.Repr
    }

    ghost predicate Trees()
      reads paging, paging.frames, fre, rsv, cmt, Blocks()
    {
      Apart() && paging.Valid() && Healthy(fre) && Healthy(rsv) && cmt.Valid()
    }

    ghost predicate Valid()
      reads paging, paging.frames, fre, rsv, cmt, Blocks()
    {
      Trees() && Sound(Now(), paging.cr3)
    }

    /** What a step does to the heap. */
    lemma Parts()
      requires Trees()
      ensures fre != rsv && fre != cmt && fre != paging.frames && rsv != cmt && rsv != paging.frames
        && cmt != paging.frames
      ensures fre.Repr !! rsv.Repr && fre.Repr !! cmt.Repr && fre.Repr !! paging.frames.Repr
      ensures rsv.Repr !! cmt.Repr && rsv.Repr !! paging.frames.Repr && cmt.Repr !! paging.frames.Repr
      ensures Blocks() == fre.Repr + rsv.Repr + cmt.Repr + paging.frames.Repr
      ensures paging.Valid() && Healthy(fre) && Healthy(rsv) && cmt.Valid() && Apart()
      ensures Now() == State(fre.Entries(), rsv.Entries(), cmt.Entries(), paging.tables, paging.frames.Entries())
    {
    }

    lemma Whole()
      requires Apart() && paging.Valid() && Healthy(fre) && Healthy(rsv) && cmt.Valid()
      ensures Trees()
      ensures Now() == State(fre.Entries(), rsv.Entries(), cmt.Entries(), paging.tables, paging.frames.Entries())
      ensures Blocks() == fre.Repr + rsv.Repr + cmt.Repr + paging.frames.Repr
    {
    }

    lemma StillApart()
      requires fre != rsv && fre != cmt && fre != paging.frames && rsv != cmt && rsv != paging.frames
        && cmt != paging.frames
      requires fre.Repr !! rsv.Repr && fre.Repr !! cmt.Repr && fre.Repr !! paging.frames.Repr
      requires rsv.Repr !! cmt.Repr && rsv.Repr !! paging.frames.Repr && cmt.Repr !! paging.frames.Repr
      ensures Apart()
    {
    }

    lemma Opened()
      requires Valid()
      ensures Trees() && Sound(Now(), paging.cr3) && Owned(paging.tables, paging.cr3, paging.frames.Entries())
      ensures CommitMap(cmt.Entries()) && (forall x :: Has(fre.Entries(), x) ==> !Has(rsv.Entries(), x) && x > 0)
        && PageWise(fre.Entries())
      ensures Normal(fre.Entries()) && Normal(rsv.Entries()) && Sorted(rsv.Entries()) && Sorted(fre.Entries())
    {
      NormalSorted(fre.Entries());
      NormalSorted(rsv.Entries());
    }

    lemma IsValid()
      requires Trees()
      ensures Valid() <==> Sound(Now(), paging.cr3)
    {
    }

    lemma Closed()
      requires Trees() && Sound(Now(), paging.cr3)
      ensures Valid()
    {
    }

    /** virtual.c:149-193. */
    method Reserve(address: nat, pagedSize: nat) returns (ok: bool)
      requires Valid() && PageRange(address, pagedSize) && address + pagedSize < QWORDS
      modifies fre, rsv, Blocks()
      ensures Valid() && fresh(Blocks() - old(Blocks()))
      ensures ok <==> AllIn(old(Now()).f, address, address + pagedSize)
      ensures if ok then Reserves(old(Now()), Now(), address, address + pagedSize) else Now() == old(Now())
    {
      hide *;
      Opened();
      Parts();
      ghost var s, hi := Now(), address + pagedSize;
      PagesAtLeastOne(address, pagedSize);
      ok := TakeRange(fre, address, pagedSize);
      StillApart();
      if ok {
        Outside(s, address, hi);
        GiveRange(rsv, address, pagedSize);
        StillApart();
      }
      Whole();
      if ok { ReservesBy(s, Now(), paging.cr3, address, hi); }
      Closed();
    }

    /** virtual.c:199-208 and 225-233: is the range reserved? A range that starts beyond the end of the block found for
        it passes the test as well. */
    method IsReserved(address: nat, pagedSize: nat) returns (ok: bool)
      requires Valid() && PageRange(address, pagedSize) && address + pagedSize < QWORDS
      ensures ok <==> Passes(Now().r, address, address + pagedSize)
    {
      hide *;
      Opened();
      Parts();
      PagesAtLeastOne(address, pagedSize);
      ghost var k;
      var region;
      region, k := FloorOf(rsv, address, pagedSize);
      FloorNear(rsv.Entries(), address, if region == null then 0 else k + 1);
      if region == null {
        IsPassed(rsv.Entries(), address, address + pagedSize);
        return false;
      }
      CommitTest(region.A + region.S, address, pagedSize);
      ok := Sub64(region.A + region.S, address) >= pagedSize;
      IsPassed(rsv.Entries(), address, address + pagedSize);
    }

    /** `UncommitVirtualMemory` on the maps. */
    method UncommitRange(address: nat, pagedSize: nat)
      requires Valid() && PageRange(address, pagedSize) && address + pagedSize < QWORDS
      modifies cmt, paging`tables, paging.frames, Blocks()
      ensures Valid() && fresh(Blocks() - old(Blocks()))
      ensures Uncommits(old(Now()), Now(), paging.cr3, address, address + pagedSize)
      ensures rsv.tree == old(rsv.tree)
    {
      hide *;
      Opened();
      Parts();
      ghost var s, hi := Now(), address + pagedSize;
      PagesAtLeastOne(address, pagedSize);
      RoundedOnce(address, pagedSize);
      UncommitVirtualMemory(cmt, paging, address, pagedSize);
      StillApart();
      Whole();
      UncommitsBy(s, Now(), paging.cr3, address, hi);
      Closed();
    }

    /** virtual.c:195-220. The books are right afterwards unless the range reaches beyond the windows. */
    method Commit(address: nat, pagedSize: nat, protect: nat) returns (ok: bool)
      requires Valid() && PageRange(address, pagedSize) && address + pagedSize < QWORDS
      modifies cmt, paging`tables, paging.frames, Blocks()
      ensures Trees() && fresh(Blocks() - old(Blocks()))
      ensures ok <==> Passes(old(Now()).r, address, address + pagedSize)
      ensures Valid() <==> StaysBelow(old(Now()).r, address, address + pagedSize)
      ensures pagedSize > 0 && if ok then Commits(old(Now()), Now(), paging.cr3, address, address + pagedSize, protect)
        else Now() == old(Now())
    {
      hide *;
      Opened();
      Parts();
      PagesAtLeastOne(address, pagedSize);
      ghost var s := Now();
      ok := IsReserved(address, pagedSize);
      Passed(s, paging.cr3, address, address + pagedSize);
      if ok {
        Parts();
        UncommitRange(address, pagedSize);
        Opened();
        Parts();
        ghost var blocks := Blocks();
        assert fresh(blocks - old(Blocks()));
        CommitBlock(address, pagedSize, protect, s);
        Parts();
        assert fresh(Blocks() - blocks);
        assert Blocks() - old(Blocks()) <= (Blocks() - blocks) + (blocks - old(Blocks()));
      }
    }

    /** virtual.c:213-219: the block of a committed region, where everything else has been cleared away. */
    method CommitBlock(address: nat, pagedSize: nat, protect: nat, ghost s: State)
      requires Valid() && PageRange(address, pagedSize) && address + pagedSize < QWORDS
      requires Sound(s, paging.cr3) && Uncommits(s, Now(), paging.cr3, address, address + pagedSize)
      requires WINDOW_LO <= address
      modifies cmt, Blocks()
      ensures Trees() && fresh(Blocks() - old(Blocks()))
      ensures Valid() <==> address + pagedSize <= WINDOW_HI
      ensures pagedSize > 0 && Commits(s, Now(), paging.cr3, address, address + pagedSize, protect)
    {
      hide *;
      Opened();
      Parts();
      PagesAtLeastOne(address, pagedSize);
      CommitMapStrict(cmt.Entries());
      ghost var t := Now();
      PutCommitted(cmt, address, pagedSize, protect);
      StillApart();
      Whole();
      CommitsBy(s, t, Now(), paging.cr3, address, address + pagedSize, protect);
      IsValid();
    }

    /** virtual.c:238-270. */
    method Free(address: nat, pagedSize: nat) returns (ok: bool)
      requires Valid() && PageRange(address, pagedSize) && address + pagedSize < QWORDS
      modifies fre, rsv, cmt, paging`tables, paging.frames, Blocks()
      ensures Valid() && fresh(Blocks() - old(Blocks()))
      ensures ok <==> AllIn(old(Now()).r, address, address + pagedSize)
      ensures if ok then Frees(old(Now()), Now(), paging.cr3, address, address + pagedSize) else Now() == old(Now())
    {
      hide *;
      Opened();
      Parts();
      PagesAtLeastOne(address, pagedSize);
      ghost var s := Now();
      ghost var k;
      var region;
      region, k := FloorOf(rsv, address, pagedSize);
      if region == null || region.A + region.S < address + pagedSize {
        return false;
      }
      Parts();
      UncommitRange(address, pagedSize);
      Opened();
      Parts();
      ghost var blocks := Blocks();
      assert fresh(blocks - old(Blocks()));
      FreeRange(region, k, address, pagedSize, s);
      Opened();
      Parts();
      assert fresh(Blocks() - blocks);
      assert Blocks() - old(Blocks()) <= (Blocks() - blocks) + (blocks - old(Blocks()));
      return true;
    }

    /** virtual.c:252-269: the reserved block is cut down to what lies below, a new one gets what lies above, and
        the range is free again. */
    method FreeRange(region: MemoryBlock, ghost k: nat, address: nat, pagedSize: nat, ghost s: State)
      requires Valid() && PageRange(address, pagedSize) && address + pagedSize < QWORDS
      requires Sound(s, paging.cr3) && AllIn(s.r, address, address + pagedSize)
      requires Uncommits(s, Now(), paging.cr3, address, address + pagedSize)
      requires k < |rsv.Items()| && k < |rsv.Entries()| && rsv.Items()[k].n == region
      requires var e := rsv.Entries()[k]; e.A <= address && address + pagedSize <= Bound(e)
      modifies fre, rsv, Blocks()
      ensures Valid() && fresh(Blocks() - old(Blocks()))
      ensures Frees(s, Now(), paging.cr3, address, address + pagedSize)
    {
      hide *;
      Opened();
      Parts();
      PagesAtLeastOne(address, pagedSize);
      ghost var t, hi := Now(), address + pagedSize;
      Cut(rsv, region, k, address, address + pagedSize);
      StillApart();
      FreeOutside(s, t, paging.cr3, address, hi);
      GiveRange(fre, address, pagedSize);
      StillApart();
      Whole();
      FreesBy(s, t, Now(), paging.cr3, address, hi);
      Closed();
    }

    /** virtual.c:129-145: the start of the first free block that is large enough, or 0. */
    method FindFree(pagedSize: nat) returns (address: nat)
      requires Valid() && pagedSize > 0
      ensures address == 0 ==> NoneFits(Now().f, pagedSize)
      ensures address != 0 ==>
        Lowest(Now().f, pagedSize, address) && address % 0x1000 == 0 && address + pagedSize < QWORDS
    {
      hide *;
      Opened();
      Parts();
      address := FirstFit(fre, pagedSize);
      if address != 0 { StartsPage(fre.Entries(), address); }
    }

    /** Step.1: the outcome when it is asked for, and nothing else. */
    method StepReserve(address: nat, pagedSize: nat, option: nat) returns (ok: bool)
      requires Valid() && PageRange(address, pagedSize) && address + pagedSize < QWORDS
      modifies fre, rsv, Blocks()
      ensures Valid() && fresh(Blocks() - old(Blocks()))
      ensures ok <==> (Asks(option, MEM_RESERVE) ==> AllIn(old(Now()).f, address, address + pagedSize))
      ensures if ok && Asks(option, MEM_RESERVE) then Reserves(old(Now()), Now(), address, address + pagedSize)
        else Now() == old(Now())
    {
      hide *;
      ok := true;
      if Asks(option, MEM_RESERVE) {
        ok := Reserve(address, pagedSize);
      }
    }

    /** Step.1 and Step.2. */
    method ReserveAndCommit(address: nat, pagedSize: nat, option: nat, protect: nat) returns (ok: bool, ghost s1: State)
      requires Valid() && PageRange(address, pagedSize) && address + pagedSize < QWORDS
      requires Asks(option, MEM_COMMIT) && !Asks(option, MEM_RESERVE) ==>
        StaysBelow(rsv.Entries(), address, address + pagedSize)
      modifies fre, rsv, cmt, paging`tables, paging.frames, Blocks()
      ensures Valid() && fresh(Blocks() - old(Blocks()))
      ensures ok <==> if Asks(option, MEM_RESERVE) then AllIn(old(Now()).f, address, address + pagedSize)
                      else Asks(option, MEM_COMMIT) ==> Passes(old(Now()).r, address, address + pagedSize)
      ensures !ok ==> Now() == old(Now())
      ensures pagedSize > 0 && (ok ==>
        FirstSteps(old(Now()), s1, Now(), paging.cr3, address, address + pagedSize, option, protect))
    {
      hide *;
      Opened();
      Parts();
      PagesAtLeastOne(address, pagedSize);
      ghost var s := Now();
      ok := StepReserve(address, pagedSize, option);
      s1 := Now();
      if !ok { return; }
      Opened();
      Parts();
      AfterReserve(s, s1, paging.cr3, address, address + pagedSize, option);
      ghost var blocks := Blocks();
      assert fresh(blocks - old(Blocks()));
      if Asks(option, MEM_COMMIT) {
        ok := Commit(address, pagedSize, protect);
        Opened();
        Parts();
        assert fresh(Blocks() - blocks);
        assert Blocks() - old(Blocks()) <= (Blocks() - blocks) + (blocks - old(Blocks()));
      }
      FirstStepsBy(s, s1, Now(), paging.cr3, address, address + pagedSize, option, protect, ok);
    }

    /** Step.3 and Step.4. */
    method UncommitAndFree(address: nat, pagedSize: nat, option: nat) returns (ok: bool, ghost s3: State)
      requires Valid() && PageRange(address, pagedSize) && address + pagedSize < QWORDS
      modifies fre, rsv, cmt, paging`tables, paging.frames, Blocks()
      ensures Valid() && fresh(Blocks() - old(Blocks()))
      ensures ok <==>
        && (Asks(option, MEM_UNCOMMIT) ==> Passes(old(Now()).r, address, address + pagedSize))
        && (Asks(option, MEM_FREE) ==> AllIn(old(Now()).r, address, address + pagedSize))
      ensures !ok ==>
        if Asks(option, MEM_UNCOMMIT) && Passes(old(Now()).r, address, address + pagedSize)
        then s3 == Now() && Uncommits(old(Now()), s3, paging.cr3, address, address + pagedSize)
        else s3 == Now() == old(Now())
      ensures ok ==> LastSteps(old(Now()), s3, Now(), paging.cr3, address, address + pagedSize, option)
    {
      hide *;
      Opened();
      Parts();
      ghost var s := Now();
      ok := StepUncommit(address, pagedSize, option);
      s3 := Now();
      if !ok { return; }
      Opened();
      Parts();
      ghost var blocks := Blocks();
      assert fresh(blocks - old(Blocks()));
      if Asks(option, MEM_FREE) {
        ok := Free(address, pagedSize);
        Opened();
        Parts();
        assert fresh(Blocks() - blocks);
        assert Blocks() - old(Blocks()) <= (Blocks() - blocks) + (blocks - old(Blocks()));
      }
      LastStepsBy(s, s3, Now(), paging.cr3, address, address + pagedSize, option, ok);
    }

    /** virtual.c:223-235. */
    method StepUncommit(address: nat, pagedSize: nat, option: nat) returns (ok: bool)
      requires Valid() && PageRange(address, pagedSize) && address + pagedSize < QWORDS
      modifies cmt, paging`tables, paging.frames, Blocks()
      ensures Valid() && fresh(Blocks() - old(Blocks()))
      ensures ok <==> (Asks(option, MEM_UNCOMMIT) ==>
                         Passes(old(Now()).r, address, address + pagedSize))
      ensures if ok && Asks(option, MEM_UNCOMMIT)
        then Uncommits(old(Now()), Now(), paging.cr3, address, address + pagedSize)
              else Now() == old(Now())
    {
      hide *;
      Opened();
      Parts();
      ok := true;
      if Asks(option, MEM_UNCOMMIT) {
        ok := IsReserved(address, pagedSize);
        Parts();
        if ok {
          UncommitRange(address, pagedSize);
          Opened();
          Parts();
        }
      }
    }

    /** `NtAllocateVirtualMemory` behind the choice of the address: all that was asked for is done, or nothing is, or,
        from beyond a reserved block, all but FREE. */
    method Perform(address: nat, pagedSize: nat, option: nat, protect: nat) returns (ok: bool)
      requires Valid() && PageRange(address, pagedSize) && address + pagedSize < QWORDS
      requires Asks(option, MEM_COMMIT) && !Asks(option, MEM_RESERVE) ==>
        StaysBelow(rsv.Entries(), address, address + pagedSize)
      modifies fre, rsv, cmt, paging`tables, paging.frames, Blocks()
      ensures Valid() && fresh(Blocks() - old(Blocks()))
      ensures ok <==> Granted(old(Now()), address, address + pagedSize, option)
      ensures if ok then Allocated(old(Now()), Now(), paging.cr3, address, address + pagedSize, option, protect)
              else Refuses(old(Now()), Now(), paging.cr3, address, address + pagedSize, option, protect)
    {
      hide *;
      Opened();
      Parts();
      PagesAtLeastOne(address, pagedSize);
      ghost var s := Now();
      ghost var s1, s3;
      ok, s1 := ReserveAndCommit(address, pagedSize, option, protect);
      IsGranted(s, address, address + pagedSize, option);
      if !ok {
        NothingDone(s, paging.cr3, address, address + pagedSize, option, protect);
        return;
      }
      Opened();
      Parts();
      ghost var s2, blocks := Now(), Blocks();
      assert fresh(blocks - old(Blocks()));
      AfterFirst(s, s1, s2, paging.cr3, address, address + pagedSize, option, protect);
      ok, s3 := UncommitAndFree(address, pagedSize, option);
      Opened();
      Parts();
      assert fresh(Blocks() - blocks);
      assert Blocks() - old(Blocks()) <= (Blocks() - blocks) + (blocks - old(Blocks()));
      if ok {
        AllSteps(s, s1, s2, s3, Now(), paging.cr3, address, address + pagedSize, option, protect);
      } else {
        StoppedAtFree(s, s1, s2, s3, paging.cr3, address, address + pagedSize, option, protect);
      }
    }

    /** `NtAllocateVirtualMemory`: the address, or 0 when the request was refused. */
    method NtAllocateVirtualMemory(address: nat, size: nat, option: nat, protect: nat) returns (r: nat)
      requires Valid() && address < QWORDS && size < QWORDS && RoundUp(address) + RoundUp(size) < QWORDS
      requires Asks(option, MEM_COMMIT) && !Asks(option, MEM_RESERVE) ==>
        StaysBelow(rsv.Entries(), RoundUp(address), RoundUp(address) + RoundUp(size))
      modifies fre, rsv, cmt, paging`tables, paging.frames, Blocks()
      ensures Valid() && fresh(Blocks() - old(Blocks()))
      ensures r == 0 <==> Refused(old(Now()), RoundUp(address), RoundUp(size), option)
      ensures r == 0 ==> Leaves(old(Now()), Now(), paging.cr3, RoundUp(address), RoundUp(size), option, protect)
      ensures r != 0 ==> Allocated(old(Now()), Now(), paging.cr3, r, r + RoundUp(size), option, protect)
      ensures r != 0 ==> if RoundUp(address) != 0 then r == RoundUp(address) else Lowest(old(Now()).f, RoundUp(size), r)
    {
      hide *;
      Opened();
      Parts();
      RoundedArguments(address, size);
      var a, pagedSize := RoundUp(address), RoundUp(size);
      WhenRefused(Now(), a, pagedSize, option);
      WhatIsLeft(Now(), paging.cr3, a, pagedSize, option, protect);
      if pagedSize == 0 {
        return 0;
      }
      if a == 0 {
        if !Asks(option, MEM_RESERVE) {
          return 0;
        }
        a := FindFree(pagedSize);
        Parts();
        if a == 0 {
          return 0;
        }
        FoundRange(Now(), a, pagedSize, option);
      }
      var ok := Perform(a, pagedSize, option, protect);
      Opened();
      Parts();
      r := if ok then a else 0;
    }
  }

  lemma FirstStepsBy(s: State, s1: State, t: State, root: nat, lo: nat, hi: nat, option: nat, protect: nat, ok: bool)
    requires lo < hi && (if Asks(option, MEM_RESERVE) then Reserves(s, s1, lo, hi) && AllIn(s1.r, lo, hi) else s1 == s)
    requires if Asks(option, MEM_COMMIT) && ok then Commits(s1, t, root, lo, hi, protect) else t == s1
    requires ok <==> (Asks(option, MEM_COMMIT) ==> Passes(s1.r, lo, hi))
    ensures ok ==> FirstSteps(s, s1, t, root, lo, hi, option, protect)
    ensures !ok ==> t == s && !Asks(option, MEM_RESERVE)
  {
  }

  lemma LastStepsBy(s: State, s3: State, t: State, root: nat, lo: nat, hi: nat, option: nat, ok: bool)
    requires if Asks(option, MEM_UNCOMMIT) then Uncommits(s, s3, root, lo, hi) && Passes(s.r, lo, hi) else s3 == s
    requires if Asks(option, MEM_FREE) && ok then Frees(s3, t, root, lo, hi) else t == s3
    requires ok <==> (Asks(option, MEM_FREE) ==> AllIn(s3.r, lo, hi))
    ensures ok ==> LastSteps(s, s3, t, root, lo, hi, option)
    ensures !ok ==> t == s3
    ensures ok <==>
      (Asks(option, MEM_UNCOMMIT) ==> Passes(s.r, lo, hi)) && (Asks(option, MEM_FREE) ==> AllIn(s.r, lo, hi))
  {
  }

  lemma IsPassed(r: seq<Entry>, lo: nat, hi: nat)
    ensures Passes(r, lo, hi) <==> AllIn(r, lo, hi) || !NotBeyond(r, lo)
  {
  }

  /** A range that passes the test starts within the windows. */
  lemma Passed(s: State, root: nat, lo: nat, hi: nat)
    requires Sound(s, root) && Normal(s.r) && lo < hi
    ensures Passes(s.r, lo, hi) ==> WINDOW_LO <= lo && (StaysBelow(s.r, lo, hi) <==> hi <= WINDOW_HI)
    ensures !Passes(s.r, lo, hi) ==> StaysBelow(s.r, lo, hi)
  {
    NormalSorted(s.r);
    if Passes(s.r, lo, hi) { PassesInWindow(s, root, lo, hi); }
  }

  lemma IsGranted(s: State, lo: nat, hi: nat, option: nat)
    ensures Granted(s, lo, hi, option) <==>
              if Asks(option, MEM_RESERVE) then AllIn(s.f, lo, hi)
              else
                && (Asks(option, MEM_COMMIT) || Asks(option, MEM_UNCOMMIT) ==> Passes(s.r, lo, hi))
                && (Asks(option, MEM_FREE) ==> AllIn(s.r, lo, hi))
    ensures AllIn(s.r, lo, hi) ==> Passes(s.r, lo, hi)
  {
  }

  /** RESERVE or COMMIT was refused. */
  lemma NothingDone(s: State, root: nat, lo: nat, hi: nat, option: nat, protect: nat)
    requires if Asks(option, MEM_RESERVE) then !AllIn(s.f, lo, hi)
             else Asks(option, MEM_COMMIT) && !Passes(s.r, lo, hi)
    ensures Refuses(s, s, root, lo, hi, option, protect) && !Granted(s, lo, hi, option)
  {
  }

  /** UNCOMMIT was refused, or FREE was. */
  lemma StoppedAtFree(s: State, s1: State, s2: State, s3: State, root: nat, lo: nat, hi: nat, option: nat, protect: nat)
    requires Sound(s, root) && Normal(s.r) && Range(lo, hi)
    requires Asks(option, MEM_COMMIT) && !Asks(option, MEM_RESERVE) ==>
      StaysBelow(s.r, lo, hi) && Passes(s.r, lo, hi)
    requires FirstSteps(s, s1, s2, root, lo, hi, option, protect)
    requires Asks(option, MEM_RESERVE) ==> AllIn(s2.r, lo, hi)
    requires !Asks(option, MEM_RESERVE) ==> s2.r == s.r && (!Asks(option, MEM_COMMIT) ==> s2 == s)
    requires !((Asks(option, MEM_UNCOMMIT) ==> Passes(s2.r, lo, hi))
      && (Asks(option, MEM_FREE) ==> AllIn(s2.r, lo, hi)))
    requires if Asks(option, MEM_UNCOMMIT) && Passes(s2.r, lo, hi) then Uncommits(s2, s3, root, lo, hi) else s3 == s2
    ensures Refuses(s, s3, root, lo, hi, option, protect) && !Granted(s, lo, hi, option)
  {
    hide Asks, FirstSteps, Uncommits, Sound, Normal, NotBeyond, AllIn, Allocated;
    if HalfDone(s, lo, option) { AllButFree(s, s1, s2, s3, root, lo, hi, option, protect); }
  }

  /** What `NtAllocateVirtualMemory` leaves when it returns 0. */
  ghost predicate Leaves(s: State, t: State, root: nat, a: nat, pagedSize: nat, option: nat, protect: nat) {
    if a == 0 || pagedSize == 0 then t == s else Refuses(s, t, root, a, a + pagedSize, option, protect)
  }

  lemma WhatIsLeft(s: State, root: nat, a: nat, pagedSize: nat, option: nat, protect: nat)
    ensures a == 0 || pagedSize == 0 ==> forall t :: t == s ==> Leaves(s, t, root, a, pagedSize, option, protect)
    ensures a != 0 && pagedSize != 0 ==>
      forall t :: Leaves(s, t, root, a, pagedSize, option, protect) <==>
                  Refuses(s, t, root, a, a + pagedSize, option, protect)
  {
  }

  /** No pages, no address where none is looked for, no free range where one is, or a range that is not what it must
      be. */
  ghost predicate Refused(s: State, a: nat, pagedSize: nat, option: nat) {
    || pagedSize == 0
    || (if a == 0 then !Asks(option, MEM_RESERVE) || NoneFits(s.f, pagedSize)
        else !Granted(s, a, a + pagedSize, option))
  }

  lemma WhenRefused(s: State, a: nat, pagedSize: nat, option: nat)
    ensures pagedSize == 0 ==> Refused(s, a, pagedSize, option)
    ensures a == 0 && !Asks(option, MEM_RESERVE) ==> Refused(s, a, pagedSize, option)
    ensures a == 0 && NoneFits(s.f, pagedSize) ==> Refused(s, a, pagedSize, option)
    ensures pagedSize > 0 && a != 0 ==> (Refused(s, a, pagedSize, option) <==> !Granted(s, a, a + pagedSize, option))
    ensures pagedSize > 0 && a == 0 && Asks(option, MEM_RESERVE) && !NoneFits(s.f, pagedSize) ==>
              !Refused(s, a, pagedSize, option)
  {
  }

  lemma FoundRange(s: State, a: nat, pagedSize: nat, option: nat)
    requires Lowest(s.f, pagedSize, a) && Asks(option, MEM_RESERVE)
    ensures Granted(s, a, a + pagedSize, option) && !NoneFits(s.f, pagedSize)
  {
  }

  lemma RoundedArguments(address: nat, size: nat)
    requires address < QWORDS && size < QWORDS
    ensures RoundUp(address) < QWORDS && RoundUp(size) < QWORDS
    ensures forall a: nat :: RoundUp(size) > 0 && (a == RoundUp(address) || a % 0x1000 == 0) ==>
      PageRange(a, RoundUp(size))
  {
    RoundsUp(address);
    RoundsUp(size);
  }

  /** The loop of virtual.c:129-145. */
  method FirstFit(fre: MemoryMap, pagedSize: nat) returns (address: nat)
    requires Healthy(fre) && pagedSize > 0 && forall x :: Has(fre.Entries(), x) ==> x > 0
    ensures address == 0 ==> NoneFits(fre.Entries(), pagedSize)
    ensures address != 0 ==> Lowest(fre.Entries(), pagedSize, address) && address + pagedSize < QWORDS
    ensures address != 0 ==> exists k: nat :: k < |fre.Entries()| && fre.Entries()[k].A == address
  {
    var searchAddress: nat := 0;
    ghost var k: nat := 0;
    ghost var es := fre.Entries();
    NormalSorted(es);
    hide Has, AllIn;
    while true
      invariant k <= |es| && Splits(es, searchAddress, k) && searchAddress < QWORDS
      invariant forall j :: 0 <= j < k ==> es[j].S < pagedSize
      decreases |es| - k
    {
      var region;
      ghost var j, steps;
      region, j, steps := fre.SearchMemoryNode(searchAddress, 1);
      SplitsOnce(es, searchAddress, j, k);
      if region == null {
        NoFit(es, pagedSize);
        return 0;
      }
      fre.Holds(k);
      searchAddress := Add64(region.A, region.S);
      if region.S >= pagedSize {
        FirstFits(es, pagedSize, k);
        return region.A;
      }
      SplitsBehind(es, k);
      k := k + 1;
    }
  }

  lemma StartsPage(es: seq<Entry>, a: nat)
    requires Normal(es) && PageWise(es) && exists k: nat :: k < |es| && es[k].A == a
    ensures a % 0x1000 == 0
  {
    var k: nat :| k < |es| && es[k].A == a;
    PageWiseAligned(es, k);
  }

  lemma NoFit(es: seq<Entry>, size: nat)
    requires Normal(es) && size > 0 && forall j :: 0 <= j < |es| ==> es[j].S < size
    ensures NoneFits(es, size)
  {
    forall y: nat ensures !HoldsFree(es, size, y) {
      if HoldsFree(es, size, y) {
        var k := OneBlock(es, y, y + size);
        assert false;
      }
    }
  }

  lemma FirstFits(es: seq<Entry>, size: nat, k: nat)
    requires Normal(es) && size > 0 && k < |es| && es[k].S >= size && forall j :: 0 <= j < k ==> es[j].S < size
    ensures Lowest(es, size, es[k].A) && Has(es, es[k].A)
  {
    forall x | es[k].A <= x < es[k].A + size ensures Has(es, x) {
      assert es[k].Covers(x);
    }
    forall y: nat | HoldsFree(es, size, y) ensures es[k].A <= y {
      var j := OneBlock(es, y, y + size);
      InOrder(es, k, j);
    }
  }

  /** virtual.c:213-219. */
  method PutCommitted(cmt: MemoryMap, address: nat, pagedSize: nat, protect: nat)
    requires cmt.Valid() && Strict(cmt.Entries()) && NoWrap(cmt.Entries()) && address + pagedSize < QWORDS
    modifies cmt, cmt.Repr
    ensures cmt.Valid() && fresh(cmt.Repr - old(cmt.Repr))
    ensures cmt.Entries() == PlainInsert(old(cmt.Entries()), Entry(address, pagedSize, protect))
  {
    var cr := new MemoryBlock(address, pagedSize, protect);
    PutPlain(cmt, cr);
  }

  lemma PagesAtLeastOne(address: nat, size: nat)
    requires PageRange(address, size)
    ensures size > 0 && Range(address, address + size)
  {
    SumAligned(address, size);
  }

  lemma RoundedOnce(address: nat, size: nat)
    requires PageRange(address, size) && size < QWORDS
    ensures RoundUp(size) == size && address % 0x1000 == 0 && size > 0
  {
    RoundsUp(size);
  }

  lemma FloorNear(es: seq<Entry>, address: nat, k: nat)
    requires Sorted(es) && Splits(es, address + 1, k)
    ensures NotBeyond(es, address) <==> (k > 0 ==> address <= Bound(es[k - 1]))
  {
    SplitsOnce(es, address + 1, k, Rank(es, address + 1));
  }

  lemma {:induction false} UncommitsBy(s: State, t: State, root: nat, lo: nat, hi: nat)
    requires Sound(s, root) && Range(lo, hi) && t.f == s.f && t.r == s.r && t.c == Clear(s.c, lo, hi)
    requires Released(s.m, s.frames, t.m, t.frames, root, Committed(s.c, lo, hi))
    ensures Uncommits(s, t, root, lo, hi) && Sound(t, root)
  {
    UncommitsSound(s, t, root, lo, hi);
  }

  lemma FreeOutside(s: State, t: State, root: nat, lo: nat, hi: nat)
    requires Sound(s, root) && AllIn(s.r, lo, hi) && Uncommits(s, t, root, lo, hi)
    ensures forall x :: lo <= x < hi ==> !Has(t.f, x)
  {
  }

  lemma FreesBy(s: State, t: State, u: State, root: nat, lo: nat, hi: nat)
    requires Sound(s, root) && Range(lo, hi) && AllIn(s.r, lo, hi) && Uncommits(s, t, root, lo, hi)
    requires With(t.f, u.f, lo, hi) && Without(t.r, u.r, lo, hi) && u.c == t.c && u.m == t.m && u.frames == t.frames
    ensures Frees(s, u, root, lo, hi) && Sound(u, root)
  {
    FreesSound(s, u, root, lo, hi);
  }

  lemma CommitsBy(s: State, t: State, u: State, root: nat, lo: nat, hi: nat, protect: nat)
    requires Sound(s, root) && Range(lo, hi) && WINDOW_LO <= lo && Uncommits(s, t, root, lo, hi)
    requires u == t.(c := PlainInsert(t.c, Entry(lo, hi - lo, protect)))
    ensures Commits(s, u, root, lo, hi, protect) && (Sound(u, root) <==> hi <= WINDOW_HI)
  {
    CommitsSound(s, u, root, lo, hi, protect);
  }

  lemma Outside(s: State, lo: nat, hi: nat)
    requires AllIn(s.f, lo, hi) && forall x :: lo <= x < hi && Has(s.f, x) ==> !Has(s.r, x)
    ensures forall x :: lo <= x < hi ==> !Has(s.r, x)
  {
  }

  lemma ReservesBy(s: State, t: State, root: nat, lo: nat, hi: nat)
    requires Without(s.f, t.f, lo, hi) && With(s.r, t.r, lo, hi) && t.c == s.c && t.m == s.m && t.frames == s.frames
    requires Sound(s, root) && Range(lo, hi) && AllIn(s.f, lo, hi)
    ensures Reserves(s, t, lo, hi) && Sound(t, root)
  {
    ReservesSound(s, t, root, lo, hi);
  }

  /** virtual.c:188-192 and 265-269: a range is merged into a map. */
  method GiveRange(map0: MemoryMap, address: nat, pagedSize: nat)
    requires Healthy(map0) && pagedSize > 0 && address + pagedSize < QWORDS
    requires forall x :: address <= x < address + pagedSize ==> !Has(map0.Entries(), x)
    modifies map0, map0.Repr
    ensures Healthy(map0) && fresh(map0.Repr - old(map0.Repr))
    ensures With(old(map0.Entries()), map0.Entries(), address, address + pagedSize)
  {
    var block := new MemoryBlock(address, pagedSize, 0);
    Add(map0, block);
  }
}
