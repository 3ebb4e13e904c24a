/** `UncommitVirtualMemory` of KERNEL/SOURCE/memory/virtual.c: the commit map and the pages behind it. */
module Uncommit {
  import opened Intervals
  import opened AvlTree
  import opened MemoryMaps
  import opened Physical
  import opened PageWalk
  import opened Paging
  import opened Regions
  import opened Frames
  import opened Release

  /** `(((x - 1) >> 12) + 1) << 12` on QWORDs. */
  function RoundUp(x: nat): nat
    requires x < QWORDS
  {
    (Sub64(x, 1) / 0x1000 + 1) * 0x1000 % QWORDS
  }

  /** Rounding up gives the first page boundary, or 0 where that is beyond the last QWORD. */
  lemma RoundsUp(x: nat)
    requires x < QWORDS
    ensures RoundUp(x) == if x == 0 || x > QWORDS - 0x1000 then 0 else FirstPage(x, 0)
    ensures RoundUp(x) % 0x1000 == 0 && RoundUp(x) < QWORDS && (x % 0x1000 == 0 ==> RoundUp(x) == x)
  {
    FirstPageAligned(x, 0);
    if x > 0 {
      var q := (x - 1) / 0x1000;
      assert 0x1000 * q <= x - 1 < 0x1000 * q + 0x1000;
      NextBoundary(q, x);
    }
  }

  lemma NextBoundary(q: nat, x: nat)
    requires 0x1000 * q < x <= 0x1000 * q + 0x1000
    ensures FirstPage(x, 0) == 0x1000 * (q + 1)
  {
    if x < 0x1000 * q + 0x1000 {
      assert x % 0x1000 == x - 0x1000 * q;
    } else {
      assert x % 0x1000 == 0;
    }
  }

  /** Whole pages, at least one. */
  predicate PageRange(address: nat, size: nat) {
    address % 0x1000 == 0 && size % 0x1000 == 0 && size > 0
  }

  lemma RoundedRange(address: nat, size: nat)
    requires size < QWORDS && address % 0x1000 == 0 && RoundUp(size) > 0
    ensures PageRange(address, RoundUp(size)) && (address + RoundUp(size)) % 0x1000 == 0
  {
    RoundsUp(size);
    SumAligned(address, RoundUp(size));
  }

  /** The committed pages of a range. */
  ghost function Committed(es: seq<Entry>, lo: nat, hi: nat): iset<nat> {
    iset v: nat | lo <= v < hi && v % 0x1000 == 0 && Has(es, v)
  }

  /** A commit map: whole pages of the windows, in order. */
  ghost predicate CommitMap(es: seq<Entry>) {
    Tiled(es) && Within(es, WINDOW_LO, WINDOW_HI)
  }

  lemma CommitMapStrict(es: seq<Entry>)
    requires CommitMap(es)
    ensures Strict(es) && Sorted(es) && NoWrap(es)
  {
    TiledStrict(es);
  }

  // ---------------------------------------------------------------- one region

  /** The part of the region in the range. */
  ghost predicate Common(e: Entry, lo: nat, hi: nat, A0: nat, S0: nat) {
    A0 == (if e.A < lo then lo else e.A) && A0 + S0 == if Bound(e) < hi then Bound(e) else hi
  }

  lemma ShrunkTiled(es: seq<Entry>, k: nat, s: nat)
    requires CommitMap(es) && k < |es| && s < es[k].S && s % 0x1000 == 0
    ensures CommitMap(Shrunk(es, k, s))
    ensures Splits(Shrunk(es, k, s), es[k].A + s + 1, if s > 0 then k + 1 else k)
  {
    var r := Shrunk(es, k, s);
    forall i | 0 <= i < k ensures Bound(es[i]) <= es[k].A {}
    forall i | k < i < |es| ensures es[k].A + s + 1 <= es[i].A {}
    if s == 0 {
      forall i | 0 <= i < |r| ensures r[i] == es[if i < k then i else i + 1] {}
    }
  }

  /** What stands behind the range, put in its place. */
  lemma TailPut(es: seq<Entry>, k: nat, lo: nat, hi: nat, r: seq<Entry>, j: nat)
    requires k < |es| && es[k].A <= lo < hi < Bound(es[k]) && r == Shrunk(es, k, lo - es[k].A) && Splits(r, hi, j)
    requires Splits(r, lo + 1, if lo > es[k].A then k + 1 else k)
    requires forall i :: k < i < |es| ==> Bound(es[k]) <= es[i].A
    ensures Replace(r, j, j, [Entry(hi, Bound(es[k]) - hi, es[k].V)]) == Replace(es, k, k + 1, Rest(es[k], lo, hi))
  {
    var p := if lo > es[k].A then k + 1 else k;
    forall i | p <= i < |r| ensures hi <= r[i].A {
      assert r[i] == es[if lo > es[k].A then i else i + 1];
    }
    SplitsOnce(r, hi, j, p);
  }

  lemma NoTail(es: seq<Entry>, k: nat, lo: nat, hi: nat)
    requires k < |es| && es[k].A <= lo < Bound(es[k]) <= hi
    ensures Shrunk(es, k, lo - es[k].A) == Replace(es, k, k + 1, Rest(es[k], lo, hi))
  {
  }

  lemma AtRegion(cmt: MemoryMap, region: MemoryBlock, k: nat)
    requires cmt.Valid() && k < |cmt.Items()| && cmt.Items()[k].n == region
    ensures k < |cmt.Entries()| == |cmt.Items()| && region.A == cmt.Entries()[k].A
    ensures region.A + region.S == Bound(cmt.Entries()[k]) && region.V == cmt.Entries()[k].V
  {
    cmt.Holds(k);
  }

  lemma IsCommon(e: Entry, lo: nat, hi: nat, S0: nat)
    requires e.A <= lo < hi && lo + S0 == if Bound(e) < hi then Bound(e) else hi
    ensures Common(e, lo, hi, lo, S0)
  {
  }

  lemma RangeAligned(address: nat, pagedSize: nat)
    requires PageRange(address, pagedSize)
    ensures address % 0x1000 == 0 && pagedSize > 0
  {
  }

  /** virtual.c:45-67: the range begins within the region. */
  method TrimBehind(cmt: MemoryMap, region: MemoryBlock, ghost k: nat, address: nat, pagedSize: nat)
      returns (A0: nat, S0: nat)
    requires cmt.Valid() && CommitMap(cmt.Entries()) && k < |cmt.Items()| && cmt.Items()[k].n == region
    requires PageRange(address, pagedSize)
    requires var e := cmt.Entries()[k]; e.A <= address < Bound(e)
    modifies cmt, cmt.Repr
    ensures cmt.Valid() && fresh(cmt.Repr - old(cmt.Repr))
    ensures cmt.Entries() == Replace(old(cmt.Entries()), k, k + 1,
      Rest(old(cmt.Entries())[k], address, address + pagedSize))
    ensures Common(old(cmt.Entries())[k], address, address + pagedSize, A0, S0)
  {
    hide *;
    ghost var es := cmt.Entries();
    ghost var hi := address + pagedSize;
    AtRegion(cmt, region, k);
    RangeAligned(address, pagedSize);
    A0 := address;
    S0 := region.A + region.S - A0;
    S0 := if S0 < pagedSize then S0 else pagedSize;
    var R0 := region.A + region.S;
    var V0 := region.V;
    IsCommon(es[k], address, hi, S0);
    Behind(es, k, address);
    Shrink(cmt, region, k, address - region.A);
    if R0 > address + pagedSize {
      InsertTail(cmt, address + pagedSize, R0, V0, es, k, address);
    } else {
      NoTail(es, k, address, hi);
    }
  }

  lemma Behind(es: seq<Entry>, k: nat, lo: nat)
    requires CommitMap(es) && k < |es| && es[k].A <= lo < Bound(es[k]) && lo % 0x1000 == 0
    ensures forall i :: k < i < |es| ==> Bound(es[k]) <= es[i].A
    ensures CommitMap(Shrunk(es, k, lo - es[k].A))
    ensures Splits(Shrunk(es, k, lo - es[k].A), lo + 1, if lo > es[k].A then k + 1 else k)
  {
    ShrunkTiled(es, k, lo - es[k].A);
  }

  lemma TailFits(es: seq<Entry>, k: nat, lo: nat)
    requires CommitMap(es) && k < |es| && es[k].A <= lo < Bound(es[k]) && lo % 0x1000 == 0
    ensures Strict(Shrunk(es, k, lo - es[k].A)) && NoWrap(Shrunk(es, k, lo - es[k].A)) && Bound(es[k]) < QWORDS
  {
    Behind(es, k, lo);
    CommitMapStrict(Shrunk(es, k, lo - es[k].A));
  }

  /** The block that takes what lies behind the range. */
  method InsertTail(cmt: MemoryMap, hi: nat, R0: nat, V0: nat, ghost es: seq<Entry>, ghost k: nat, ghost lo: nat)
    requires cmt.Valid() && CommitMap(es) && k < |es| && es[k].A <= lo < hi < R0 == Bound(es[k]) && V0 == es[k].V
    requires lo % 0x1000 == 0 && cmt.Entries() == Shrunk(es, k, lo - es[k].A)
    modifies cmt, cmt.Repr
    ensures cmt.Valid() && fresh(cmt.Repr - old(cmt.Repr))
    ensures cmt.Entries() == Replace(es, k, k + 1, Rest(es[k], lo, hi))
  {
    hide *;
    Behind(es, k, lo);
    TailFits(es, k, lo);
    var rx := new MemoryBlock(hi, R0 - hi, V0);
    PutPlain(cmt, rx);
    TailPut(es, k, lo, hi, old(cmt.Entries()), Rank(old(cmt.Entries()), hi));
  }

  /** `InsertMemoryNode(&map, block, 0)`. */
  method PutPlain(map0: MemoryMap, block: MemoryBlock)
    requires map0.Valid() && block !in map0.Repr && block.L == null && block.R == null
    requires Strict(map0.Entries()) && NoWrap(map0.Entries()) && block.A + block.S < QWORDS
    modifies map0, map0.Repr, block
    ensures map0.Valid() && map0.Repr <= old(map0.Repr) + {block}
    ensures var es, k := old(map0.Entries()), Rank(old(map0.Entries()), old(block.A));
            Splits(es, old(block.A), k) && map0.Entries() ==
              Replace(es, k, k, [Entry(old(block.A), old(block.S), old(block.V))])
  {
    ghost var was, e := map0.Items(), CellOf(block).e;
    map0.InsertMemoryNode(block, 0);
    map0.HungEntries(was, map0.Items(), Rank(EntriesOf(was), e.A), block, e);
  }

  /** virtual.c:68-80: the region begins within the range. */
  method TrimFront(cmt: MemoryMap, region: MemoryBlock, ghost k: nat, address: nat, pagedSize: nat)
      returns (A0: nat, S0: nat)
    requires cmt.Valid() && k < |cmt.Items()| && cmt.Items()[k].n == region
    requires var e := cmt.Entries()[k]; address <= e.A < address + pagedSize && !(e.A <= address < Bound(e))
    modifies cmt, cmt.Repr
    ensures cmt.Valid() && fresh(cmt.Repr - old(cmt.Repr))
    ensures cmt.Entries() == Replace(old(cmt.Entries()), k, k + 1,
      Rest(old(cmt.Entries())[k], address, address + pagedSize))
    ensures Common(old(cmt.Entries())[k], address, address + pagedSize, A0, S0)
  {
    cmt.Holds(k);
    A0 := region.A;
    S0 := address + pagedSize - A0;
    S0 := if S0 < region.S then S0 else region.S;
    hide MemoryMap.Valid, EntriesOf, Removed;
    ghost var was := cmt.Items();
    cmt.SetBlock(region, region.A + S0, region.S - S0, k);
    ghost var mid := cmt.Items();
    if region.S == 0 {
      ghost var rounds := cmt.RemoveMemoryNode(region, k);
    }
    FrontCut(was, mid, cmt.Items(), k, address, address + pagedSize, S0);
  }

  lemma FrontCut(was: seq<Item>, mid: seq<Item>, now: seq<Item>, k: nat, lo: nat, hi: nat, s: nat)
    requires k < |was| && lo <= was[k].e.A < hi && !(was[k].e.A <= lo < Bound(was[k].e))
    requires s == if hi - was[k].e.A < was[k].e.S then hi - was[k].e.A else was[k].e.S
    requires mid == was[k := Item(was[k].n, Entry(was[k].e.A + s, was[k].e.S - s, was[k].e.V))]
    requires if was[k].e.S - s == 0 then Removed(mid, now, k) else now == mid
    ensures EntriesOf(now) == Replace(EntriesOf(was), k, k + 1, Rest(was[k].e, lo, hi))
  {
  }
  // ---------------------------------------------------------------- the scan

  /** The pages of one region in the range. */
  ghost function Shared(e: Entry, lo: nat, hi: nat): iset<nat> {
    iset v: nat | lo <= v < hi && v % 0x1000 == 0 && e.Covers(v)
  }

  lemma SharedPages(e: Entry, lo: nat, hi: nat, A0: nat, S0: nat)
    requires Common(e, lo, hi, A0, S0)
    ensures PagesFrom(A0, A0 + S0) == Shared(e, lo, hi)
  {
  }

  lemma SharedNone(e: Entry, lo: nat, hi: nat)
    requires (Bound(e) <= lo || hi <= e.A) && lo < hi && e.S > 0
    ensures Shared(e, lo, hi) == PagesFrom(0, 0) && Rest(e, lo, hi) == [e]
  {
  }

  /** The first j regions have been dealt with; the next one starts at or behind from. */
  ghost predicate Scanned(es0: seq<Entry>, es: seq<Entry>, j: nat, lo: nat, hi: nat, from: nat) {
    && j <= |es0| && es == Clear(es0[..j], lo, hi) + es0[j..]
    && Splits(es, from, |Clear(es0[..j], lo, hi)|) && from < QWORDS
  }

  lemma ScanStart(es0: seq<Entry>, lo: nat, hi: nat)
    ensures Scanned(es0, es0, 0, lo, hi, 0)
  {
    assert es0[..0] == [] && Clear([], lo, hi) + es0[0..] == es0;
  }

  lemma {:induction false} ScanMap(es0: seq<Entry>, es: seq<Entry>, j: nat, lo: nat, hi: nat, from: nat)
    requires CommitMap(es0) && Scanned(es0, es, j, lo, hi, from) && lo < hi && lo % 0x1000 == 0 && hi % 0x1000 == 0
    ensures CommitMap(es)
    ensures j < |es0| ==> es[|Clear(es0[..j], lo, hi)|] == es0[j] && |Clear(es0[..j], lo, hi)| < |es|
    ensures j == |es0| ==> |Clear(es0[..j], lo, hi)| == |es|
  {
    var mid := if j < |es0| then es0[j].A else WINDOW_HI;
    TiledPart(es0, j);
    forall i | 0 <= i < j ensures Bound(es0[..j][i]) <= mid {}
    forall i | j <= i < |es0| ensures mid <= es0[i].A {}
    hide Tiled, Clear;
    ClearTiled(es0[..j], lo, hi, WINDOW_LO, mid);
    TiledConcat(Clear(es0[..j], lo, hi), es0[j..], WINDOW_LO, mid, WINDOW_HI);
  }

  lemma {:induction false} ClearLast(es0: seq<Entry>, j: nat, lo: nat, hi: nat)
    requires j < |es0|
    ensures Clear(es0[..j + 1], lo, hi) == Clear(es0[..j], lo, hi) + Rest(es0[j], lo, hi)
  {
    assert es0[..j + 1] == es0[..j] + [es0[j]];
    ClearConcat(es0[..j], [es0[j]], lo, hi);
    assert [es0[j]][1..] == [];
  }

  lemma {:induction false} ScanStep(es0: seq<Entry>, es: seq<Entry>, es': seq<Entry>, j: nat, lo: nat, hi: nat,
      from: nat, k: nat)
    requires CommitMap(es0) && Scanned(es0, es, j, lo, hi, from) && lo < hi && lo % 0x1000 == 0 && hi % 0x1000 == 0
    requires j < |es0| && k == |Clear(es0[..j], lo, hi)| < |es| && es' == Replace(es, k, k + 1, Rest(es0[j], lo, hi))
    ensures Scanned(es0, es', j + 1, lo, hi, Bound(es0[j]))
  {
    var c, r, e := Clear(es0[..j], lo, hi), Rest(es0[j], lo, hi), es0[j];
    ClearLast(es0, j, lo, hi);
    assert es[..k] == c && es[k + 1..] == es0[j + 1..];
    TiledPart(es0, j);
    forall i | 0 <= i < j ensures Bound(es0[..j][i]) <= e.A {}
    ClearTiled(es0[..j], lo, hi, WINDOW_LO, e.A);
    RestTiled(e, lo, hi);
    BehindScan(c, r, es0[j + 1..], e);
  }

  lemma BehindScan(c: seq<Entry>, r: seq<Entry>, rest: seq<Entry>, e: Entry)
    requires Tiled(c) && Tiled(r) && Within(c, WINDOW_LO, e.A) && Within(r, e.A, Bound(e)) && e.S > 0
    requires forall i :: 0 <= i < |rest| ==> Bound(e) <= rest[i].A
    ensures Splits(c + r + rest, Bound(e), |c + r|)
  {
  }

  lemma {:induction false} ScanEnd(es0: seq<Entry>, es: seq<Entry>, j: nat, lo: nat, hi: nat, from: nat)
    requires CommitMap(es0) && Scanned(es0, es, j, lo, hi, from) && lo < hi
    requires j < |es0| ==> hi <= es0[j].A
    ensures es == Clear(es0, lo, hi)
    ensures Committed(es0, lo, hi) == Committed(es0[..j], lo, hi)
  {
    forall i | j <= i < |es0| ensures hi <= es0[i].A {
      assert i > j ==> Bound(es0[j]) <= es0[i].A;
    }
    assert forall v: nat :: v < hi ==> !Has(es0[j..], v);
    assert es0 == es0[..j] + es0[j..];
    ClearConcat(es0[..j], es0[j..], lo, hi);
    ClearNothing(es0[j..], lo, hi);
    hide CommitMap, Clear, Has;
    forall v: nat | lo <= v < hi ensures Has(es0, v) <==> Has(es0[..j], v) {
      HasConcat(es0[..j], es0[j..], v);
    }
  }

  lemma CommittedMore(es0: seq<Entry>, j: nat, lo: nat, hi: nat)
    requires j < |es0|
    ensures Committed(es0[..j + 1], lo, hi) == Committed(es0[..j], lo, hi) + Shared(es0[j], lo, hi)
  {
    assert es0[..j + 1] == es0[..j] + [es0[j]];
    forall v: nat ensures Has(es0[..j + 1], v) <==> Has(es0[..j], v) || es0[j].Covers(v) {
      HasConcat(es0[..j], [es0[j]], v);
      HasOne(es0[j], v);
    }
  }

  lemma CommittedNone(lo: nat, hi: nat)
    ensures Committed([], lo, hi) == iset{}
  {
  }

  // ---------------------------------------------------------------- the whole

  /** What the loop may rely on when it releases the pages from A0 on. */
  ghost predicate Part(e: Entry, lo: nat, hi: nat, A0: nat, S0: nat) {
    && PagesFrom(A0, A0 + S0) == Shared(e, lo, hi) && A0 % 0x1000 == 0 && S0 % 0x1000 == 0
    && (S0 > 0 ==> WINDOW_LO <= A0 && A0 + S0 <= WINDOW_HI)
  }

  lemma PartMeans(e: Entry, lo: nat, hi: nat, A0: nat, S0: nat)
    requires Part(e, lo, hi, A0, S0)
    ensures PagesFrom(A0, A0 + S0) == Shared(e, lo, hi) && A0 % 0x1000 == 0 && S0 % 0x1000 == 0
    ensures S0 > 0 ==> WINDOW_LO <= A0 && A0 + S0 <= WINDOW_HI
  {
  }

  lemma CommonPart(es: seq<Entry>, k: nat, lo: nat, hi: nat)
    requires CommitMap(es) && k < |es| && lo % 0x1000 == 0 && hi % 0x1000 == 0 && lo < hi
    ensures forall A0: nat, S0: nat :: Common(es[k], lo, hi, A0, S0) ==> Part(es[k], lo, hi, A0, S0)
    ensures Bound(es[k]) <= lo ==> Part(es[k], lo, hi, 0, 0) && Replace(es, k, k + 1, Rest(es[k], lo, hi)) == es
  {
    EntryAligned(es, k);
    hide CommitMap;
    var e := es[k];
    forall A0: nat, S0: nat | Common(e, lo, hi, A0, S0) ensures Part(e, lo, hi, A0, S0) {
      PartOf(e, lo, hi, A0, S0);
    }
    if Bound(e) <= lo {
      SharedNone(e, lo, hi);
    }
  }

  lemma EntryAligned(es: seq<Entry>, k: nat)
    requires CommitMap(es) && k < |es|
    ensures es[k].S > 0 && es[k].A % 0x1000 == 0 && Bound(es[k]) % 0x1000 == 0 && WINDOW_LO <= es[k].A
      && Bound(es[k]) <= WINDOW_HI
  {
    SumAligned(es[k].A, es[k].S);
  }

  lemma PartOf(e: Entry, lo: nat, hi: nat, A0: nat, S0: nat)
    requires Common(e, lo, hi, A0, S0) && lo % 0x1000 == 0 && hi % 0x1000 == 0 && e.A % 0x1000 == 0
      && Bound(e) % 0x1000 == 0
    requires WINDOW_LO <= e.A && Bound(e) <= WINDOW_HI
    ensures Part(e, lo, hi, A0, S0)
  {
    SharedPages(e, lo, hi, A0, S0);
    SumAligned(A0, S0);
    hide PagesFrom, Shared;
  }

  lemma SumAligned(a: nat, s: nat)
    ensures a % 0x1000 == 0 && (a + s) % 0x1000 == 0 ==> s % 0x1000 == 0
    ensures a % 0x1000 == 0 && s % 0x1000 == 0 ==> (a + s) % 0x1000 == 0
  {
  }

  /** virtual.c:37-85: the region loses what it shares with the range. */
  method TrimRegion(cmt: MemoryMap, region: MemoryBlock, ghost k: nat, address: nat, pagedSize: nat)
      returns (last: bool, A0: nat, S0: nat)
    requires cmt.Valid() && CommitMap(cmt.Entries()) && k < |cmt.Items()| && cmt.Items()[k].n == region
    requires PageRange(address, pagedSize)
    modifies cmt, cmt.Repr
    ensures cmt.Valid() && fresh(cmt.Repr - old(cmt.Repr))
    ensures last <==> address + pagedSize <= old(cmt.Entries())[k].A
    ensures last ==> cmt.Entries() == old(cmt.Entries())
    ensures !last ==>
      cmt.Entries() == Replace(old(cmt.Entries()), k, k + 1, Rest(old(cmt.Entries())[k], address, address + pagedSize))
    ensures !last ==> Part(old(cmt.Entries())[k], address, address + pagedSize, A0, S0)
  {
    cmt.Holds(k);
    SumAligned(address, pagedSize);
    CommonPart(cmt.Entries(), k, address, address + pagedSize);
    hide CommitMap, MemoryMap.Valid, Part, Rest, Common;
    last, A0, S0 := false, 0, 0;
    if region.A <= address && region.A + region.S > address {
      A0, S0 := TrimBehind(cmt, region, k, address, pagedSize);
    } else if address <= region.A && address + pagedSize > region.A {
      A0, S0 := TrimFront(cmt, region, k, address, pagedSize);
    } else if address + pagedSize <= region.A {
      last := true;
    }
  }

  /** What one round of the outer loop does once it has found a region. */
  method UncommitRegion(cmt: MemoryMap, paging: PageTables, region: MemoryBlock, ghost k: nat, address: nat,
      pagedSize: nat)
      returns (last: bool)
    requires cmt.Valid() && CommitMap(cmt.Entries()) && k < |cmt.Items()| && cmt.Items()[k].n == region
    requires PageRange(address, pagedSize)
    requires paging.Valid() && Owned(paging.tables, paging.cr3, paging.frames.Entries())
    requires cmt != paging.frames && cmt.Repr !! paging.frames.Repr
    modifies cmt, cmt.Repr, paging`tables, paging.frames, paging.frames.Repr
    ensures cmt.Valid() && fresh(cmt.Repr - old(cmt.Repr))
    ensures paging.Valid() && fresh(paging.frames.Repr - old(paging.frames.Repr)) && cmt.Repr !! paging.frames.Repr
    ensures last <==> address + pagedSize <= old(cmt.Entries())[k].A
    ensures last ==> cmt.Entries() == old(cmt.Entries()) && paging.tables == old(paging.tables)
                     && paging.frames.Entries() == old(paging.frames.Entries())
    ensures !last ==>
      cmt.Entries() == Replace(old(cmt.Entries()), k, k + 1, Rest(old(cmt.Entries())[k], address, address + pagedSize))
    ensures !last ==>
      Released(old(paging.tables), old(paging.frames.Entries()), paging.tables, paging.frames.Entries(), paging.cr3,
                               Shared(old(cmt.Entries())[k], address, address + pagedSize))
  {
    hide *;
    AtRegion(cmt, region, k);
    ghost var e := cmt.Entries()[k];
    var A0, S0;
    last, A0, S0 := TrimRegion(cmt, region, k, address, pagedSize);
    if !last {
      PartMeans(e, address, address + pagedSize, A0, S0);
      ReleasePages(paging, A0, S0);
    }
  }
  /** The state of the scan: the first j regions have been trimmed, and their pages in the range released. */
  ghost predicate Scan(es0: seq<Entry>, es: seq<Entry>, j: nat, lo: nat, hi: nat, from: nat,
      m: Tables, free: seq<Entry>, m': Tables, free': seq<Entry>, root: nat) {
    && Scanned(es0, es, j, lo, hi, from) && CommitMap(es0) && lo < hi && lo % 0x1000 == 0 && hi % 0x1000 == 0
    && Owned(m, root, free) && Released(m, free, m', free', root, Committed(es0[..j], lo, hi))
  }

  lemma {:induction false} ScanSees(es0: seq<Entry>, es: seq<Entry>, j: nat, lo: nat, hi: nat, from: nat,
      m: Tables, free: seq<Entry>, m': Tables, free': seq<Entry>, root: nat, k: nat)
    requires Scan(es0, es, j, lo, hi, from, m, free, m', free', root) && Splits(es, from, k)
    ensures CommitMap(es) && Sorted(es) && Owned(m', root, free') && j <= |es0|
    ensures j < |es0| <==> k < |es|
    ensures j < |es0| ==> es[k] == es0[j] && k == |Clear(es0[..j], lo, hi)| && Bound(es[k]) < QWORDS
  {
    SplitsOnce(es, from, k, |Clear(es0[..j], lo, hi)|);
    ScanMap(es0, es, j, lo, hi, from);
    CommitMapStrict(es);
    ReleasedOwned(m, free, m', free', root, Committed(es0[..j], lo, hi));
  }

  lemma {:induction false} ScanNext(es0: seq<Entry>, es: seq<Entry>, es': seq<Entry>, j: nat, lo: nat, hi: nat,
      from: nat, k: nat,
      m: Tables, free: seq<Entry>, m1: Tables, free1: seq<Entry>, m2: Tables, free2: seq<Entry>, root: nat)
    requires Scan(es0, es, j, lo, hi, from, m, free, m1, free1, root) && j < |es0| && k < |es|
      && k == |Clear(es0[..j], lo, hi)|
    requires es' == Replace(es, k, k + 1, Rest(es0[j], lo, hi))
      && Released(m1, free1, m2, free2, root, Shared(es0[j], lo, hi))
    ensures Scan(es0, es', j + 1, lo, hi, Bound(es0[j]), m, free, m2, free2, root)
  {
    ScanStep(es0, es, es', j, lo, hi, from, k);
    CommittedMore(es0, j, lo, hi);
    ReleasedTwice(m, free, m1, free1, m2, free2, root, Committed(es0[..j], lo, hi), Shared(es0[j], lo, hi));
  }

  lemma ScanBegins(es0: seq<Entry>, lo: nat, size: nat, m: Tables, free: seq<Entry>, root: nat)
    requires CommitMap(es0) && PageRange(lo, size) && Owned(m, root, free)
    ensures Scan(es0, es0, 0, lo, lo + size, 0, m, free, m, free, root)
  {
    SumAligned(lo, size);
    ScanStart(es0, lo, lo + size);
    assert es0[..0] == [];
    CommittedNone(lo, lo + size);
    NothingReleased(m, free, root);
  }

  lemma {:induction false} ScanFinished(es0: seq<Entry>, es: seq<Entry>, j: nat, lo: nat, hi: nat, from: nat,
      m: Tables, free: seq<Entry>, m': Tables, free': seq<Entry>, root: nat)
    requires Scan(es0, es, j, lo, hi, from, m, free, m', free', root) && (j < |es0| ==> hi <= es0[j].A)
    ensures es == Clear(es0, lo, hi) && Released(m, free, m', free', root, Committed(es0, lo, hi))
  {
    ScanEnd(es0, es, j, lo, hi, from);
  }

  /** `UncommitVirtualMemory`. */
  method UncommitVirtualMemory(cmt: MemoryMap, paging: PageTables, address: nat, size: nat)
    requires size < QWORDS && address % 0x1000 == 0 && RoundUp(size) > 0 && address + RoundUp(size) < QWORDS
    requires cmt.Valid() && CommitMap(cmt.Entries()) && cmt != paging.frames && cmt.Repr !! paging.frames.Repr
    requires paging.Valid() && Owned(paging.tables, paging.cr3, paging.frames.Entries())
    modifies cmt, cmt.Repr, paging`tables, paging.frames, paging.frames.Repr
    ensures cmt.Valid() && fresh(cmt.Repr - old(cmt.Repr))
    ensures paging.Valid() && fresh(paging.frames.Repr - old(paging.frames.Repr)) && cmt.Repr !! paging.frames.Repr
    ensures cmt.Entries() == Clear(old(cmt.Entries()), address, address + RoundUp(size))
    ensures Released(old(paging.tables), old(paging.frames.Entries()), paging.tables, paging.frames.Entries(),
                     paging.cr3, Committed(old(cmt.Entries()), address, address + RoundUp(size)))
  {
    hide *;
    RoundedRange(address, size);
    ghost var es0, m, free := cmt.Entries(), paging.tables, paging.frames.Entries();
    var pagedSize := RoundUp(size);
    ScanBegins(es0, address, pagedSize, m, free, paging.cr3);
    ghost var j, from := ScanRegions(cmt, paging, address, pagedSize, es0, m, free);
    ScanFinished(es0, cmt.Entries(), j, address, address + pagedSize, from, m, free, paging.tables,
      paging.frames.Entries(), paging.cr3);
  }

  /** The outer loop. */
  method ScanRegions(cmt: MemoryMap, paging: PageTables, address: nat, pagedSize: nat, ghost es0: seq<Entry>,
      ghost m: Tables, ghost free: seq<Entry>)
      returns (ghost j: nat, ghost from: nat)
    requires PageRange(address, pagedSize)
    requires cmt.Valid() && paging.Valid() && cmt != paging.frames && cmt.Repr !! paging.frames.Repr
    requires Scan(es0, cmt.Entries(), 0, address, address + pagedSize, 0, m, free, paging.tables,
      paging.frames.Entries(), paging.cr3)
    modifies cmt, cmt.Repr, paging`tables, paging.frames, paging.frames.Repr
    ensures cmt.Valid() && fresh(cmt.Repr - old(cmt.Repr))
    ensures paging.Valid() && fresh(paging.frames.Repr - old(paging.frames.Repr)) && cmt.Repr !! paging.frames.Repr
    ensures j <= |es0| && (j < |es0| ==> address + pagedSize <= es0[j].A)
    ensures Scan(es0, cmt.Entries(), j, address, address + pagedSize, from, m, free, paging.tables,
      paging.frames.Entries(), paging.cr3)
  {
    hide *;
    var searchAddress: nat := 0;
    var last := false;
    j, from := 0, 0;
    while !last
      invariant cmt.Valid() && fresh(cmt.Repr - old(cmt.Repr))
      invariant paging.Valid() && fresh(paging.frames.Repr - old(paging.frames.Repr)) && cmt.Repr !! paging.frames.Repr
      invariant j <= |es0| && (last && j < |es0| ==> address + pagedSize <= es0[j].A)
        && (!last ==> from == searchAddress)
      invariant Scan(es0, cmt.Entries(), j, address, address + pagedSize, from, m, free, paging.tables,
        paging.frames.Entries(), paging.cr3)
      decreases |es0| - j, !last
    {
      last, searchAddress := NextRegion(cmt, paging, address, pagedSize, searchAddress, es0, j, m, free);
      if !last { j, from := j + 1, searchAddress; }
    }
  }

  /** One round of the outer loop. */
  method NextRegion(cmt: MemoryMap, paging: PageTables, address: nat, pagedSize: nat, searchAddress: nat,
      ghost es0: seq<Entry>, ghost j: nat, ghost m: Tables, ghost free: seq<Entry>) returns (last: bool, next: nat)
    requires PageRange(address, pagedSize)
    requires cmt.Valid() && paging.Valid() && cmt != paging.frames && cmt.Repr !! paging.frames.Repr
    requires Scan(es0, cmt.Entries(), j, address, address + pagedSize, searchAddress, m, free, paging.tables,
      paging.frames.Entries(), paging.cr3)
    modifies cmt, cmt.Repr, paging`tables, paging.frames, paging.frames.Repr
    ensures cmt.Valid() && fresh(cmt.Repr - old(cmt.Repr))
    ensures paging.Valid() && fresh(paging.frames.Repr - old(paging.frames.Repr)) && cmt.Repr !! paging.frames.Repr
    ensures j <= |es0| && (!last ==> j < |es0|)
    ensures last && j < |es0| ==> address + pagedSize <= es0[j].A
    ensures Scan(es0, cmt.Entries(), if last then j else j + 1, address, address + pagedSize,
                 if last then searchAddress else next, m, free,
                 paging.tables, paging.frames.Entries(), paging.cr3)
  {
    hide *;
    ghost var es, m1, free1 := cmt.Entries(), paging.tables, paging.frames.Entries();
    var region;
    ghost var k;
    region, next, k := FindRegion(cmt, searchAddress, es0, j, address, address + pagedSize, m, free, m1, free1,
      paging.cr3);
    last := region == null;
    if region != null {
      last := UncommitRegion(cmt, paging, region, k, address, pagedSize);
      if !last {
        ScanNext(es0, es, cmt.Entries(), j, address, address + pagedSize, searchAddress, k, m, free, m1, free1,
                 paging.tables, paging.frames.Entries(), paging.cr3);
      }
    }
  }

  /** virtual.c:31-37: the next region, and where the search goes on behind it. */
  method FindRegion(cmt: MemoryMap, searchAddress: nat, ghost es0: seq<Entry>, ghost j: nat, ghost lo: nat,
      ghost hi: nat,
      ghost m: Tables, ghost free: seq<Entry>, ghost m1: Tables, ghost free1: seq<Entry>, ghost root: nat)
      returns (region: MemoryBlock?, next: nat, ghost k: nat)
    requires cmt.Valid() && Scan(es0, cmt.Entries(), j, lo, hi, searchAddress, m, free, m1, free1, root)
    ensures CommitMap(cmt.Entries()) && Owned(m1, root, free1) && j <= |es0|
    ensures region == null <==> j == |es0|
    ensures region != null ==>
      && j < |es0| && k < |cmt.Items()| && cmt.Items()[k].n == region && k < |cmt.Entries()|
      && cmt.Entries()[k] == es0[j]
      && k == |Clear(es0[..j], lo, hi)| && next == Bound(es0[j])
  {
    ghost var es := cmt.Entries();
    ScanSorted(es0, es, j, lo, hi, searchAddress, m, free, m1, free1, root);
    hide Scan, CommitMap, MemoryMap.Valid, Released, Owned, Clear, Splits, Sorted;
    ghost var steps;
    region, k, steps := cmt.SearchMemoryNode(searchAddress, 1);
    ScanSees(es0, es, j, lo, hi, searchAddress, m, free, m1, free1, root, k);
    next := searchAddress;
    if region != null {
      cmt.Holds(k);
      next := Add64(region.A, region.S);
    }
  }

  lemma ScanSorted(es0: seq<Entry>, es: seq<Entry>, j: nat, lo: nat, hi: nat, from: nat,
      m: Tables, free: seq<Entry>, m': Tables, free': seq<Entry>, root: nat)
    requires Scan(es0, es, j, lo, hi, from, m, free, m', free', root)
    ensures Sorted(es)
  {
    ScanMap(es0, es, j, lo, hi, from);
    CommitMapStrict(es);
  }
}
