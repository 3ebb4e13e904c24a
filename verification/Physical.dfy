/** The physical frame allocator of KERNEL/SOURCE/memory/page.c on top of the interval index. */
module Physical {
  import opened Intervals
  import opened AvlTree
  import opened MemoryMaps

  // ---------------------------------------------------------------- pages: 0 is 4K, 1 is 2M, 2 is 1G

  /** `count << shift`. */
  function Bytes(count: nat, pageSize: nat): nat {
    if pageSize == 0 then count * 0x1000 else if pageSize == 1 then count * 0x20_0000 else count * 0x4000_0000
  }

  /** `size >> shift`. */
  function Pages(size: nat, pageSize: nat): nat {
    if pageSize == 0 then size / 0x1000 else if pageSize == 1 then size / 0x20_0000 else size / 0x4000_0000
  }

  /** `a & ((1 << shift) - 1)`. */
  function Offset(a: nat, pageSize: nat): nat {
    if pageSize == 0 then a % 0x1000 else if pageSize == 1 then a % 0x20_0000 else a % 0x4000_0000
  }

  /** `-(a & mask) & mask`: what is missing to the next page boundary. */
  function Gap(a: nat, pageSize: nat): nat {
    if Offset(a, pageSize) == 0 then 0 else Bytes(1, pageSize) - Offset(a, pageSize)
  }

  predicate Aligned(a: nat, pageSize: nat) {
    Offset(a, pageSize) == 0
  }

  /** The first multiple of the page size at or above a. */
  function FirstPage(a: nat, pageSize: nat): nat {
    a + Gap(a, pageSize)
  }

  lemma FirstPageIsFirst(a: nat, pageSize: nat)
    ensures a <= FirstPage(a, pageSize) < a + Bytes(1, pageSize) && Aligned(FirstPage(a, pageSize), pageSize)
    ensures forall y: nat :: Aligned(y, pageSize) && a <= y ==> FirstPage(a, pageSize) <= y
  {
    forall y: nat | Aligned(y, pageSize) && a <= y ensures FirstPage(a, pageSize) <= y {
      NextMultiple(a, y, pageSize);
    }
    FirstPageAligned(a, pageSize);
  }

  lemma FirstPageAligned(a: nat, pageSize: nat)
    ensures a <= FirstPage(a, pageSize) < a + Bytes(1, pageSize) && Aligned(FirstPage(a, pageSize), pageSize)
  {
    RoundUp4K(a);
    RoundUp2M(a);
    RoundUp1G(a);
  }

  lemma RoundUp4K(a: nat)
    ensures a % 0x1000 > 0 ==> (a + (0x1000 - a % 0x1000)) % 0x1000 == 0
  {
    var q := a / 0x1000 + 1;
    assert a + (0x1000 - a % 0x1000) == 0x1000 * q;
  }

  lemma RoundUp2M(a: nat)
    ensures a % 0x20_0000 > 0 ==> (a + (0x20_0000 - a % 0x20_0000)) % 0x20_0000 == 0
  {
    var q := a / 0x20_0000 + 1;
    assert a + (0x20_0000 - a % 0x20_0000) == 0x20_0000 * q;
  }

  lemma RoundUp1G(a: nat)
    ensures a % 0x4000_0000 > 0 ==> (a + (0x4000_0000 - a % 0x4000_0000)) % 0x4000_0000 == 0
  {
    var q := a / 0x4000_0000 + 1;
    assert a + (0x4000_0000 - a % 0x4000_0000) == 0x4000_0000 * q;
  }

  lemma NextMultiple(a: nat, y: nat, pageSize: nat)
    requires Aligned(y, pageSize) && a <= y
    ensures FirstPage(a, pageSize) <= y
  {
    if pageSize == 0 {
      assert y / 0x1000 >= a / 0x1000 && (a % 0x1000 > 0 ==> y / 0x1000 > a / 0x1000);
    } else if pageSize == 1 {
      assert y / 0x20_0000 >= a / 0x20_0000 && (a % 0x20_0000 > 0 ==> y / 0x20_0000 > a / 0x20_0000);
    } else {
      assert y / 0x4000_0000 >= a / 0x4000_0000 && (a % 0x4000_0000 > 0 ==> y / 0x4000_0000 > a / 0x4000_0000);
    }
  }

  /** The block holds an aligned page. */
  predicate Usable(e: Entry, pageSize: nat) {
    FirstPage(e.A, pageSize) + Bytes(1, pageSize) <= e.A + e.S
  }

  lemma PagesFit(size: nat, count: nat, pageSize: nat)
    ensures count <= Pages(size, pageSize) <==> Bytes(count, pageSize) <= size
    ensures count > 0 ==> Bytes(count, pageSize) >= Bytes(1, pageSize)
  {
  }

  ghost predicate Healthy(frames: MemoryMap)
    reads frames, frames.Repr
  {
    frames.Valid() && Normal(frames.Entries()) && NoWrap(frames.Entries()) && Plain(frames.Entries())
  }

  // ---------------------------------------------------------------- bytes

  /** Every byte from lo up to hi is in the map. */
  ghost predicate AllIn(es: seq<Entry>, lo: int, hi: int) {
    forall x :: lo <= x < hi ==> Has(es, x)
  }

  /** now holds the bytes of was but those from lo up to hi. */
  ghost predicate Without(was: seq<Entry>, now: seq<Entry>, lo: int, hi: int) {
    forall x :: Has(now, x) <==> Has(was, x) && !(lo <= x < hi)
  }

  ghost predicate With(was: seq<Entry>, now: seq<Entry>, lo: int, hi: int) {
    forall x :: Has(now, x) <==> Has(was, x) || lo <= x < hi
  }

  /** A stretch of bytes of a normal map lies within one block. */
  lemma OneBlock(es: seq<Entry>, lo: nat, hi: nat) returns (k: nat)
    requires Normal(es) && lo < hi && AllIn(es, lo, hi)
    ensures k < |es| && es[k].A <= lo && hi <= Bound(es[k])
  {
    assert Has(es, lo);
    k :| 0 <= k < |es| && es[k].Covers(lo);
    var x := Bound(es[k]);
    assert x < hi ==> Has(es, x);
    NothingBehind(es, k);
  }

  /** The byte behind a block of a normal map is not in the map. */
  lemma NothingBehind(es: seq<Entry>, k: nat)
    requires Normal(es) && k < |es|
    ensures !Has(es, Bound(es[k]))
  {
    forall j | 0 <= j < |es| ensures !es[j].Covers(Bound(es[k])) {
      if j > k {
        assert es[k].A + es[k].S < es[j].A;
      } else if j < k {
        assert es[j].A + es[j].S < es[k].A;
      }
    }
  }

  /** A block none of whose bytes is in the map is clear of every block of the map. */
  lemma FreshFromBytes(es: seq<Entry>, b: Entry)
    requires Normal(es) && b.S > 0 && forall x :: b.A <= x < Bound(b) ==> !Has(es, x)
    ensures Fresh(es, b) && Absent(es, b.A)
  {
    forall i | 0 <= i < |es| ensures Bound(b) <= es[i].A || Bound(es[i]) <= b.A {
      var x := if es[i].A < b.A then b.A else es[i].A;
      assert es[i].Covers(x) ==> Has(es, x);
    }
  }

  /** Block k keeps its first s bytes; without any it goes. */
  ghost function Shrunk(es: seq<Entry>, k: nat, s: nat): seq<Entry>
    requires k < |es|
  {
    if s > 0 then es[k := Entry(es[k].A, s, es[k].V)] else RemoveAt(es, k)
  }

  lemma ShrunkNormal(es: seq<Entry>, k: nat, s: nat)
    requires Normal(es) && NoWrap(es) && Plain(es) && k < |es| && s <= es[k].S
    ensures Normal(Shrunk(es, k, s)) && NoWrap(Shrunk(es, k, s)) && Plain(Shrunk(es, k, s))
  {
    if s == 0 {
      NormalRemove(es, k);
    } else {
      forall i, j | 0 <= i < j < |es| ensures Bound(Shrunk(es, k, s)[i]) < Shrunk(es, k, s)[j].A {
        assert es[i].A + es[i].S < es[j].A;
      }
    }
  }

  lemma ShrunkBytes(es: seq<Entry>, k: nat, s: nat)
    requires Normal(es) && k < |es| && s <= es[k].S
    ensures Without(es, Shrunk(es, k, s), es[k].A + s, Bound(es[k]))
  {
    forall x ensures Has(Shrunk(es, k, s), x) <==> Has(es, x) && !(es[k].A + s <= x < Bound(es[k])) {
      ShrunkByte(es, k, s, x);
    }
  }

  lemma ShrunkByte(es: seq<Entry>, k: nat, s: nat, x: int)
    requires Normal(es) && k < |es| && s <= es[k].S
    ensures Has(Shrunk(es, k, s), x) <==> Has(es, x) && !(es[k].A + s <= x < Bound(es[k]))
  {
    var mid := if s > 0 then [Entry(es[k].A, s, es[k].V)] else [];
    assert Shrunk(es, k, s) == Replace(es, k, k + 1, mid);
    HasReplace(es, k, k + 1, mid, x);
    assert es[k..k + 1] == [es[k]];
    HasOne(es[k], x);
    HasShort(mid, x);
    if es[k].Covers(x) { OthersMiss(es, k, x); }
  }

  /** A byte of one block of a normal map is in no other. */
  lemma OthersMiss(es: seq<Entry>, k: nat, x: int)
    requires Normal(es) && k < |es| && es[k].Covers(x)
    ensures !Has(es[..k], x) && !Has(es[k + 1..], x)
  {
    forall i | 0 <= i < k ensures !es[i].Covers(x) {
      assert es[i].A + es[i].S < es[k].A;
    }
    forall i | k < i < |es| ensures !es[i].Covers(x) {
      assert es[k].A + es[k].S < es[i].A;
    }
  }

  /** Merging a block of unmapped bytes, with all that follows for a map of frames. */
  lemma MergeFresh(es: seq<Entry>, b: Entry)
    requires Normal(es) && NoWrap(es) && Plain(es) && b.S > 0 && b.V == 0 && Bound(b) < QWORDS
    requires forall x :: b.A <= x < Bound(b) ==> !Has(es, x)
    ensures Strict(es) && Sorted(es) && Fresh(es, b) && Absent(es, b.A)
    ensures var r := MergeInsert(es, b); Normal(r) && NoWrap(r) && Plain(r) && With(es, r, b.A, Bound(b))
  {
    NormalSorted(es);
    FreshFromBytes(es, b);
    MergeNormal(es, b);
    forall x ensures Has(MergeInsert(es, b), x) <==> Has(es, x) || b.A <= x < Bound(b) {
      MergeIsUnion(es, b, x);
    }
  }

  // ---------------------------------------------------------------- allocation

  /** Block k is the first that holds an aligned page. */
  ghost predicate FirstUsable(es: seq<Entry>, pageSize: nat, k: nat) {
    && k < |es| && Usable(es[k], pageSize)
    && (forall j :: 0 <= j < k ==> !Usable(es[j], pageSize))
  }

  /** What a successful request takes: from the first page of the first usable block as many pages as
      were asked for or as fit. */
  ghost predicate Takes(es: seq<Entry>, pageSize: nat, wanted: nat, address: nat, count: nat) {
    exists k: nat :: FirstUsable(es, pageSize, k) && address == FirstPage(es[k].A, pageSize) &&
                count == (var fit := Pages(Bound(es[k]) - address, pageSize); if fit < wanted then fit else wanted)
  }

  ghost predicate NoneUsable(es: seq<Entry>, pageSize: nat) {
    forall j :: 0 <= j < |es| ==> !Usable(es[j], pageSize)
  }

  /** `AllocatePhysicalMemory`. The loop has no answer only where the source halts (code 2). */
  method AllocatePhysicalMemory(frames: MemoryMap, physicalAddress: nat, pageSize: nat, pageCount: nat)
      returns (code: nat, address: nat, count: nat)
    requires Healthy(frames)
    modifies frames, frames.Repr
    ensures Healthy(frames) && fresh(frames.Repr - old(frames.Repr))
    ensures pageCount == 0 ==> code == 0 && count == 0 && address == physicalAddress
    ensures pageCount > 0 && pageSize > 2 ==> code == 1 && count == 0 && address == physicalAddress
    ensures pageCount > 0 && pageSize <= 2 && NoneUsable(old(frames.Entries()), pageSize) ==>
              code == 2 && count == 0 && address == physicalAddress
    ensures pageCount > 0 && pageSize <= 2 && !NoneUsable(old(frames.Entries()), pageSize) ==>
              code == 0 && Takes(old(frames.Entries()), pageSize, pageCount, address, count)
    ensures Without(old(frames.Entries()), frames.Entries(), address, address + Bytes(count, pageSize))
    ensures count == 0 ==> frames.Entries() == old(frames.Entries())
  {
    code, address, count := 0, physicalAddress, 0;
    if pageCount == 0 {
      return;
    }
    if pageSize > 2 {
      return 1, physicalAddress, 0;
    }
    var min, blockSize, blockAddr;
    ghost var k;
    min, blockSize, blockAddr, k := FindPage(frames, pageSize, pageCount);
    if min == null {
      return 2, physicalAddress, 0;
    }
    address := blockAddr;
    var allocateCount := Pages(blockSize, pageSize);
    count := if allocateCount < pageCount then allocateCount else pageCount;
    Taken(frames.Entries(), pageSize, pageCount, address, count, k);
    hide Usable, Bytes, Pages, FirstPage, Takes, NoneUsable, Healthy, Without;
    Cut(frames, min, k, blockAddr, blockAddr + Bytes(count, pageSize));
  }

  /** The search loop of `AllocatePhysicalMemory`: the first block that holds an aligned page, and what
      of it lies behind its first page boundary. */
  method FindPage(frames: MemoryMap, pageSize: nat, pageCount: nat)
      returns (min: MemoryBlock?, blockSize: nat, blockAddr: nat, ghost k: nat)
    requires Healthy(frames) && pageCount > 0
    ensures min == null ==> NoneUsable(frames.Entries(), pageSize)
    ensures min != null ==>
      var es := frames.Entries();
      && k < |es| && FirstUsable(es, pageSize, k) && min == frames.Items()[k].n
      && blockAddr == FirstPage(es[k].A, pageSize) && blockSize == Bound(es[k]) - blockAddr
      && (var fit := Pages(blockSize, pageSize);
          fit > 0 && 0 < Bytes(if fit < pageCount then fit else pageCount, pageSize) <= blockSize)
  {
    var searchAddress: nat := 0;
    k := 0;
    ghost var es := frames.Entries();
    NormalSorted(es);
    blockSize, blockAddr := 0, 0;
    hide Bytes, Pages, Offset, Gap, FirstPage, Usable;
    while true
      invariant k <= |es| && Splits(es, searchAddress, k) && searchAddress < QWORDS
      invariant forall j :: 0 <= j < k ==> !Usable(es[j], pageSize)
      decreases |es| - k
    {
      ghost var j, steps;
      min, j, steps := frames.SearchMemoryNode(searchAddress, 1);
      SplitsOnce(es, searchAddress, j, k);
      if min == null {
        return;
      }
      frames.Holds(k);
      searchAddress := Add64(min.A, min.S);
      blockSize, blockAddr := min.S, min.A;
      var reminder := Gap(blockAddr, pageSize);
      UsableBlock(es[k], pageSize, pageCount);
      if blockSize >= reminder && blockSize - reminder >= Bytes(1, pageSize) {
        blockSize, blockAddr := blockSize - reminder, blockAddr + reminder;
        return;
      }
      SplitsBehind(es, k);
      k := k + 1;
    }
  }

  /** The arithmetic of one round: what is left of the block behind its first page boundary. */
  lemma UsableBlock(e: Entry, pageSize: nat, wanted: nat)
    requires wanted > 0
    ensures var g := Gap(e.A, pageSize);
            && (Usable(e, pageSize) <==> e.S >= g && e.S - g >= Bytes(1, pageSize))
            && FirstPage(e.A, pageSize) == e.A + g
            && (Usable(e, pageSize) ==>
                  var fit := Pages(e.S - g, pageSize);
                  var count := if fit < wanted then fit else wanted;
                  fit > 0 && 0 < Bytes(count, pageSize) <= e.S - g)
  {
    var g := Gap(e.A, pageSize);
    if Usable(e, pageSize) {
      var fit := Pages(e.S - g, pageSize);
      PagesFit(e.S - g, fit, pageSize);
      PagesFit(e.S - g, if fit < wanted then fit else wanted, pageSize);
      PagesFit(e.S - g, 1, pageSize);
    }
  }

  lemma Taken(es: seq<Entry>, pageSize: nat, wanted: nat, address: nat, count: nat, k: nat)
    requires FirstUsable(es, pageSize, k) && address == FirstPage(es[k].A, pageSize)
    requires count == (var fit := Pages(Bound(es[k]) - address, pageSize); if fit < wanted then fit else wanted)
    ensures Takes(es, pageSize, wanted, address, count) && !NoneUsable(es, pageSize)
  {
  }

  /** Takes the bytes from lo up to hi out of a block: the block keeps what lies below, a new block
      gets what lies above. */
  method Cut(frames: MemoryMap, min: MemoryBlock, ghost k: nat, lo: nat, hi: nat)
    requires Healthy(frames) && k < |frames.Items()| && frames.Items()[k].n == min
    requires var e := frames.Entries()[k]; e.A <= lo < hi <= Bound(e)
    modifies frames, frames.Repr
    ensures Healthy(frames) && fresh(frames.Repr - old(frames.Repr))
    ensures Without(old(frames.Entries()), frames.Entries(), lo, hi)
  {
    ghost var es := frames.Entries();
    ghost var s := lo - es[k].A;
    frames.Holds(k);
    var end := min.A + min.S;
    ShrunkNormal(es, k, s);
    ShrunkBytes(es, k, s);
    Shrink(frames, min, k, lo - min.A);
    if hi < end {
      var block := new MemoryBlock(hi, end - hi, 0);
      Add(frames, block);
    }
  }

  method Shrink(frames: MemoryMap, min: MemoryBlock, ghost k: nat, s: nat)
    requires frames.Valid() && k < |frames.Items()| && frames.Items()[k].n == min
    modifies frames, frames.Repr
    ensures frames.Valid() && frames.Repr <= old(frames.Repr)
    ensures frames.Entries() == Shrunk(old(frames.Entries()), k, s)
  {
    frames.Holds(k);
    hide MemoryMap.Valid, EntriesOf, Shrunk, Removed;
    ghost var was := frames.Items();
    frames.SetBlock(min, min.A, s, k);
    ghost var mid := frames.Items();
    if min.S == 0 {
      ghost var rounds := frames.RemoveMemoryNode(min, k);
    }
    ShrunkItems(was, mid, frames.Items(), k, s);
  }

  lemma ShrunkItems(was: seq<Item>, mid: seq<Item>, now: seq<Item>, k: nat, s: nat)
    requires k < |was| && mid == was[k := Item(was[k].n, Entry(was[k].e.A, s, was[k].e.V))]
    requires if s == 0 then Removed(mid, now, k) else now == mid
    ensures EntriesOf(now) == Shrunk(EntriesOf(was), k, s)
  {
  }

  /** Puts a block of bytes that the map does not hold into it. */
  method Add(frames: MemoryMap, block: MemoryBlock)
    requires Healthy(frames) && block !in frames.Repr && block.L == null && block.R == null
    requires block.S > 0 && block.V == 0 && block.A + block.S < QWORDS
    requires forall x :: block.A <= x < block.A + block.S ==> !Has(frames.Entries(), x)
    modifies frames, frames.Repr, block
    ensures Healthy(frames) && frames.Repr <= old(frames.Repr) + {block}
    ensures With(old(frames.Entries()), frames.Entries(), old(block.A), old(block.A + block.S))
  {
    MergeFresh(frames.Entries(), CellOf(block).e);
    frames.InsertMemoryNode(block, 1);
  }

  lemma SplitsBehind(es: seq<Entry>, k: nat)
    requires Normal(es) && k < |es|
    ensures Splits(es, Bound(es[k]), k + 1)
  {
    forall i | 0 <= i < k ensures es[i].A < Bound(es[k]) {
      assert es[i].A + es[i].S < es[k].A;
    }
    forall i | k < i < |es| ensures Bound(es[k]) <= es[i].A {
      assert es[k].A + es[k].S < es[i].A;
    }
  }

  // ---------------------------------------------------------------- what an allocation is worth

  /** A successful request is granted the lowest aligned page whose bytes are all free, and the range is free. */
  lemma TakesLowest(es: seq<Entry>, pageSize: nat, wanted: nat, address: nat, count: nat, y: nat)
    requires Normal(es) && wanted > 0 && Takes(es, pageSize, wanted, address, count)
    ensures 0 < count <= wanted && Aligned(address, pageSize) && AllIn(es, address, address + Bytes(count, pageSize))
    ensures Aligned(y, pageSize) && AllIn(es, y, y + Bytes(1, pageSize)) ==> address <= y
  {
    var k: nat :| FirstUsable(es, pageSize, k) && address == FirstPage(es[k].A, pageSize) &&
                  count == (var fit := Pages(Bound(es[k]) - address, pageSize); if fit < wanted then fit else wanted);
    FirstPageIsFirst(es[k].A, pageSize);
    PagesFit(Bound(es[k]) - address, count, pageSize);
    PagesFit(Bound(es[k]) - address, 1, pageSize);
    forall x | address <= x < address + Bytes(count, pageSize) ensures Has(es, x) {
      assert es[k].Covers(x);
    }
    if Aligned(y, pageSize) && AllIn(es, y, y + Bytes(1, pageSize)) {
      var j := OneBlock(es, y, y + Bytes(1, pageSize));
      FirstPageIsFirst(es[j].A, pageSize);
      assert Usable(es[j], pageSize) && k <= j;
      assert k < j ==> es[k].A + es[k].S < es[j].A;
    }
  }

  /** ... and it is granted all it asked for, or all pages up to the first one that is not free. */
  lemma TakesMost(es: seq<Entry>, pageSize: nat, wanted: nat, address: nat, count: nat)
    requires Normal(es) && wanted > 0 && Takes(es, pageSize, wanted, address, count) && count < wanted
    ensures !AllIn(es, address, address + Bytes(count + 1, pageSize))
  {
    var k: nat :| FirstUsable(es, pageSize, k) && address == FirstPage(es[k].A, pageSize) &&
                  count == (var fit := Pages(Bound(es[k]) - address, pageSize); if fit < wanted then fit else wanted);
    PagesFit(Bound(es[k]) - address, count + 1, pageSize);
    FirstPageIsFirst(es[k].A, pageSize);
    NothingBehind(es, k);
  }

  /** A request fails just when no aligned page is free. */
  lemma NoneUsableIff(es: seq<Entry>, pageSize: nat)
    requires Normal(es)
    ensures NoneUsable(es, pageSize) <==>
            forall y: nat :: Aligned(y, pageSize) ==> !AllIn(es, y, y + Bytes(1, pageSize))
  {
    if NoneUsable(es, pageSize) {
      forall y: nat | Aligned(y, pageSize) ensures !AllIn(es, y, y + Bytes(1, pageSize)) {
        if AllIn(es, y, y + Bytes(1, pageSize)) {
          var j := OneBlock(es, y, y + Bytes(1, pageSize));
          FirstPageIsFirst(es[j].A, pageSize);
          assert false;
        }
      }
    } else {
      var j :| 0 <= j < |es| && Usable(es[j], pageSize);
      var y := FirstPage(es[j].A, pageSize);
      FirstPageIsFirst(es[j].A, pageSize);
      forall x | y <= x < y + Bytes(1, pageSize) ensures Has(es, x) {
        assert es[j].Covers(x);
      }
    }
  }

  // ---------------------------------------------------------------- counting free frames

  /** An aligned 4K page that is wholly free. */
  ghost predicate FreePage(es: seq<Entry>, y: nat) {
    y % 0x1000 == 0 && AllIn(es, y, y + 0x1000)
  }

  ghost function FreePages(es: seq<Entry>): set<nat> {
    set y: nat | y < QWORDS && FreePage(es, y)
  }

  /** Taking a page leaves one less. */
  lemma PageTaken(was: seq<Entry>, now: seq<Entry>, page: nat)
    requires NoWrap(was) && page % 0x1000 == 0 && AllIn(was, page, page + 0x1000)
    requires Without(was, now, page, page + 0x1000)
    ensures page in FreePages(was) && FreePages(now) == FreePages(was) - {page}
    ensures |FreePages(now)| + 1 == |FreePages(was)|
  {
    assert Has(was, page);
    forall y: nat ensures FreePage(now, y) <==> FreePage(was, y) && y != page {
      if FreePage(now, y) {
        assert Has(now, y);
      } else if FreePage(was, y) && y != page {
        PagesApart(y, page);
      }
    }
  }

  lemma PagesApart(y: nat, z: nat)
    requires y % 0x1000 == 0 && z % 0x1000 == 0 && y != z
    ensures y + 0x1000 <= z || z + 0x1000 <= y
  {
    var p, q := y / 0x1000, z / 0x1000;
    assert y == 0x1000 * p && z == 0x1000 * q;
  }

  /** A frame can be had as long as one is left. */
  lemma NoFreePages(es: seq<Entry>)
    requires Normal(es) && NoWrap(es)
    ensures NoneUsable(es, 0) <==> |FreePages(es)| == 0
  {
    NoneUsableIff(es, 0);
    forall y: nat ensures FreePage(es, y) <==> Aligned(y, 0) && AllIn(es, y, y + Bytes(1, 0)) {}
    forall y: nat | FreePage(es, y) ensures y in FreePages(es) {
      assert Has(es, y);
    }
  }

  // ---------------------------------------------------------------- freeing

  /** `FreePhysicalMemory`. */
  method FreePhysicalMemory(frames: MemoryMap, physicalAddress: nat, pageSize: nat, pageCount: nat) returns (code: nat)
    requires Healthy(frames)
    requires pageSize <= 2 && pageCount > 0 && physicalAddress != QWORDS - 1 ==>
               && physicalAddress + Bytes(pageCount, pageSize) < QWORDS
               && forall x :: physicalAddress <= x < physicalAddress + Bytes(pageCount, pageSize) ==>
                 !Has(frames.Entries(), x)
    modifies frames, frames.Repr
    ensures Healthy(frames) && fresh(frames.Repr - old(frames.Repr))
    ensures code == if pageSize > 2 then 1 else 0
    ensures if pageSize <= 2 && pageCount > 0 && physicalAddress != QWORDS - 1
            then With(old(frames.Entries()), frames.Entries(), physicalAddress,
              physicalAddress + Bytes(pageCount, pageSize))
            else frames.Entries() == old(frames.Entries())
  {
    if pageSize > 2 {
      return 1;
    }
    if pageCount == 0 {
      return 0;
    }
    if physicalAddress == QWORDS - 1 {
      return 0;
    }
    PagesFit(0, pageCount, pageSize);
    var block := new MemoryBlock(physicalAddress, Bytes(pageCount, pageSize), 0);
    Add(frames, block);
    return 0;
  }

  /** Putting back what was taken gives the map that was there before, block for block. */
  lemma TakenAndReturned(was: seq<Entry>, mid: seq<Entry>, now: seq<Entry>, lo: int, hi: int)
    requires Normal(was) && Plain(was) && Normal(now) && Plain(now)
    requires AllIn(was, lo, hi) && Without(was, mid, lo, hi) && With(mid, now, lo, hi)
    ensures now == was
  {
    forall x: int ensures Has(now, x) <==> Has(was, x) {
      assert Has(mid, x) <==> Has(was, x) && !(lo <= x < hi);
    }
    NormalIsUnique(now, was);
  }

  /** `FreePhysicalMemory` of exactly what `AllocatePhysicalMemory` returned undoes it. */
  method AllocateAndFree(frames: MemoryMap, pageSize: nat, pageCount: nat) returns (code: nat)
    requires Healthy(frames)
    modifies frames, frames.Repr
    ensures Healthy(frames) && frames.Entries() == old(frames.Entries())
  {
    ghost var was := frames.Entries();
    var address, count;
    code, address, count := AllocatePhysicalMemory(frames, 0, pageSize, pageCount);
    ghost var mid := frames.Entries();
    if code == 0 && count > 0 {
      TakesLowest(was, pageSize, pageCount, address, count, 0);
      var freed := FreePhysicalMemory(frames, address, pageSize, count);
      TakenAndReturned(was, mid, frames.Entries(), address, address + Bytes(count, pageSize));
    } else {
    }
  }
}