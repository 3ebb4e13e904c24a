/** BIOS/STBR64.C: the allocator of the boot loader on the list of memory ranges from the BIOS, and the frames of the
    mappings it builds. */
module BootLoader {
  import opened Intervals
  import opened Physical

  /** A range of the BIOS map: base, size, type. */
  datatype Range = Range(A: nat, S: nat, F: nat)

  /** `(DWORD) F0 == 1`: memory that may be used. */
  predicate Free(r: Range) { r.F % 0x1_0000_0000 == 1 }

  ghost predicate Holds(r: Range, x: int) { r.A <= x < r.A + r.S }

  /** Byte x lies in a range that may be used. */
  ghost predicate IsFree(map0: seq<Range>, x: int) {
    exists r :: r in map0 && Free(r) && Holds(r, x)
  }

  /** No two usable ranges have a byte in common, and none reaches beyond the last QWORD. */
  ghost predicate Apart(map0: seq<Range>) {
    && (forall i :: 0 <= i < |map0| && Free(map0[i]) ==> map0[i].A + map0[i].S < QWORDS)
    && (forall i, j, x: int :: 0 <= i < j < |map0| && Free(map0[i]) && Free(map0[j]) && Holds(map0[i], x) ==>
      !Holds(map0[j], x))
  }

  const MEGA: nat := 0x10_0000

  /** The range holds an aligned page at or above 1M. */
  predicate Suits(r: Range, pageSize: nat) {
    Free(r) && r.A >= MEGA && Usable(Entry(r.A, r.S, 0), pageSize)
  }

  /** That is: it may be used, lies at or above 1M, and some aligned page lies wholly in it. */
  lemma SuitsIff(r: Range, pageSize: nat)
    ensures Suits(r, pageSize) <==>
      && r.F % 0x1_0000_0000 == 1 && r.A >= 0x10_0000
      && exists a: nat :: Aligned(a, pageSize) && r.A <= a && a + Bytes(1, pageSize) <= r.A + r.S
  {
    FirstPageIsFirst(r.A, pageSize);
    if Suits(r, pageSize) { assert Aligned(FirstPage(r.A, pageSize), pageSize); }
    hide Bytes, FirstPage, Aligned;
  }

  /** BIOS/STBR64.C:348-367: the range at k keeps what lies behind the pages; what lies before them goes to the end of
      the list. */
  ghost function CutRange(map0: seq<Range>, k: nat, address: nat, bytes: nat): seq<Range>
    requires k < |map0| && map0[k].A <= address && address + bytes <= map0[k].A + map0[k].S
  {
    var r := map0[k];
    map0[k := Range(address + bytes, r.A + r.S - (address + bytes), r.F)] +
      (if address > r.A then [Range(r.A, address - r.A, 1)] else [])
  }

  lemma FreeAt(map0: seq<Range>, x: int)
    ensures IsFree(map0, x) <==> exists i :: 0 <= i < |map0| && Free(map0[i]) && Holds(map0[i], x)
  {
    if IsFree(map0, x) {
      var r :| r in map0 && Free(r) && Holds(r, x);
      var i :| 0 <= i < |map0| && map0[i] == r;
    }
    if i :| 0 <= i < |map0| && Free(map0[i]) && Holds(map0[i], x) {
      assert map0[i] in map0;
    }
  }

  /** The list loses exactly the bytes of the pages; shrinking in place and appending lose and double no byte. */
  lemma CutFree(map0: seq<Range>, k: nat, address: nat, bytes: nat, x: int)
    requires Apart(map0) && k < |map0| && Free(map0[k])
    requires map0[k].A <= address && address + bytes <= map0[k].A + map0[k].S
    ensures IsFree(CutRange(map0, k, address, bytes), x) <==> IsFree(map0, x) && !(address <= x < address + bytes)
  {
    var t := CutRange(map0, k, address, bytes);
    FreeAt(map0, x);
    FreeAt(t, x);
    var r := map0[k];
    if IsFree(t, x) {
      var i :| 0 <= i < |t| && Free(t[i]) && Holds(t[i], x);
      if i == k || i == |map0| { assert Holds(map0[k], x); } else { OnlyOne(map0, i, k, x); assert Holds(map0[i], x); }
    }
    if IsFree(map0, x) && !(address <= x < address + bytes) {
      var i :| 0 <= i < |map0| && Free(map0[i]) && Holds(map0[i], x);
      if i != k { assert t[i] == map0[i]; }
      else if x >= address + bytes { assert Holds(t[k], x) && Free(t[k]); }
      else { assert Holds(t[|map0|], x) && Free(t[|map0|]); }
    }
  }

  lemma OnlyOne(map0: seq<Range>, i: nat, k: nat, x: int)
    requires Apart(map0) && i < |map0| && k < |map0| && i != k && Free(map0[i]) && Free(map0[k]) && Holds(map0[i], x)
    ensures !Holds(map0[k], x)
  {
    if Holds(map0[k], x) { assert false; }
  }

  lemma CutApart(map0: seq<Range>, k: nat, address: nat, bytes: nat)
    requires Apart(map0) && k < |map0| && Free(map0[k])
    requires map0[k].A <= address && address + bytes <= map0[k].A + map0[k].S
    ensures Apart(CutRange(map0, k, address, bytes))
  {
    var t := CutRange(map0, k, address, bytes);
    forall i, j, x: int | 0 <= i < j < |t| && Free(t[i]) && Free(t[j]) && Holds(t[i], x) ensures !Holds(t[j], x) {
      var a, b := if i == |map0| then k else i, if j == |map0| then k else j;
      assert Holds(map0[a], x);
      if a != b {
        OnlyOne(map0, a, b, x);
      }
    }
  }

  /** Range k is the first that suits. */
  ghost predicate FirstSuits(map0: seq<Range>, pageSize: nat, k: nat) {
    k < |map0| && Suits(map0[k], pageSize) && forall j :: 0 <= j < k ==> !Suits(map0[j], pageSize)
  }

  ghost predicate NoneSuits(map0: seq<Range>, pageSize: nat) {
    forall j :: 0 <= j < |map0| ==> !Suits(map0[j], pageSize)
  }

  // ---------------------------------------------------------------- the allocator

  class BootMap {
    /** The list from SYSTEM_TABLE_MMAP + 8 on. */
    var map0: seq<Range>
    /** The list as the BIOS gave it, and the ranges handed out so far. */
    ghost const given: seq<Range>
    ghost var out: seq<Range>

    /** What was handed out is disjoint, usable memory at or above 1M; and together with what is left in the list it is
        what the BIOS gave. */
    ghost predicate Valid()
      reads this
    {
      && Apart(map0) && Apart(out)
      && (forall i :: 0 <= i < |out| ==> Free(out[i]) && out[i].A >= MEGA)
      && (forall x: int :: IsFree(map0, x) ==> !IsFree(out, x))
      && (forall x: int :: IsFree(map0, x) || IsFree(out, x) <==> IsFree(given, x))
    }

    constructor (map0: seq<Range>)
      requires Apart(map0)
      ensures Valid() && given == map0 && this.map0 == map0 && out == []
    {
      this.map0, given, out := map0, map0, [];
    }

    /** The loop of `allocate_physical`: the first range that suits. */
    method Find(pageSize: nat) returns (found: bool, beg: nat)
      ensures found ==> FirstSuits(map0, pageSize, beg)
      ensures !found ==> NoneSuits(map0, pageSize)
    {
      hide Usable, Offset, FirstPage;
      beg := 0;
      while beg < |map0|
        invariant beg <= |map0| && forall j :: 0 <= j < beg ==> !Suits(map0[j], pageSize)
      {
        var A0, S0, F0 := map0[beg].A, map0[beg].S, map0[beg].F;
        if F0 % 0x1_0000_0000 == 1 && A0 >= MEGA {
          var S1 := Gap(A0, pageSize);
          UsableBlock(Entry(A0, S0, 0), pageSize, 1);
          if S0 >= S1 && S0 - S1 >= Bytes(1, pageSize) {
            return true, beg;
          }
        }
        beg := beg + 1;
      }
      found := false;
    }

    /** `allocate_physical`; where the source halts the machine, halted is set. */
    method allocate_physical(pageSize: nat, pageCount: nat) returns (halted: bool, physicalAddress: nat, count: nat)
      requires Valid() && pageCount > 0 && pageSize <= 2
      modifies this`map0, this`out
      ensures Valid()
      ensures halted <==> NoneSuits(old(map0), pageSize)
      ensures halted ==> map0 == old(map0) && out == old(out)
      ensures !halted ==>
        && 0 < count <= pageCount && Aligned(physicalAddress, pageSize) && physicalAddress >= MEGA
        && (exists k: nat :: Grants(old(map0), pageSize, pageCount, k, physicalAddress, count))
        && out == old(out) + [Range(physicalAddress, Bytes(count, pageSize), 1)]
        && (forall x: int :: physicalAddress <= x < physicalAddress + Bytes(count, pageSize) ==> IsFree(old(map0), x))
        && (forall x: int :: IsFree(map0, x) <==>
          IsFree(old(map0), x) && !(physicalAddress <= x < physicalAddress + Bytes(count, pageSize)))
    {
      physicalAddress, count := 0, pageCount;
      var found, beg := Find(pageSize);
      halted := !found;
      if halted {
        return;
      }
      ghost var was := map0;
      var A1, S1 := map0[beg].A, Gap(map0[beg].A, pageSize);
      var A0, S0 := A1 + S1, map0[beg].S - S1;
      physicalAddress := A0;
      var allocateCount := Pages(S0, pageSize);
      if allocateCount < count {
        count := allocateCount;
      }
      GrantsFirst(was, pageSize, pageCount, beg, physicalAddress, count);
      hide Usable, Bytes, Pages, Offset, Gap, FirstPage, Aligned, Suits, Apart, IsFree;
      var bytes := Bytes(count, pageSize);
      map0 := map0[beg := Range(A0 + bytes, S0 - bytes, map0[beg].F)];
      if S1 > 0 {
        map0 := map0 + [Range(A1, S1, 1)];
      }
      assert map0 == CutRange(was, beg, physicalAddress, bytes);
      out := out + [Range(physicalAddress, bytes, 1)];
      Granted(was, map0, old(out), out, given, beg, physicalAddress, bytes);
    }
  }

  /** What a request gets from range k: the pages from its first boundary on, as many as were asked for or as fit. */
  ghost predicate Grants(map0: seq<Range>, pageSize: nat, wanted: nat, k: nat, address: nat, count: nat) {
    && FirstSuits(map0, pageSize, k) && address == FirstPage(map0[k].A, pageSize)
    && count == (var fit := Pages(map0[k].A + map0[k].S - address, pageSize); if fit < wanted then fit else wanted)
  }

  lemma GrantsFirst(map0: seq<Range>, pageSize: nat, wanted: nat, k: nat, address: nat, count: nat)
    requires FirstSuits(map0, pageSize, k) && wanted > 0 && address == map0[k].A + Gap(map0[k].A, pageSize)
    requires map0[k].S >= Gap(map0[k].A, pageSize)
    requires count == (var fit := Pages(map0[k].S - Gap(map0[k].A, pageSize), pageSize);
      if fit < wanted then fit else wanted)
    ensures Grants(map0, pageSize, wanted, k, address, count) && 0 < count <= wanted && Free(map0[k]) && address >= MEGA
    ensures Aligned(address, pageSize) && 0 < Bytes(count, pageSize) <= map0[k].A + map0[k].S - address
  {
    UsableBlock(Entry(map0[k].A, map0[k].S, 0), pageSize, wanted);
    FirstPageIsFirst(map0[k].A, pageSize);
  }

  lemma Granted(was: seq<Range>, now: seq<Range>, out: seq<Range>, out': seq<Range>, given: seq<Range>, k: nat,
      address: nat, bytes: nat)
    requires Apart(was) && Apart(out) && k < |was| && Free(was[k]) && bytes > 0 && address >= MEGA
    requires was[k].A <= address && address + bytes <= was[k].A + was[k].S && now == CutRange(was, k, address, bytes)
    requires out' == out + [Range(address, bytes, 1)]
    requires (forall x: int :: IsFree(was, x) ==> !IsFree(out, x))
      && (forall x: int :: IsFree(was, x) || IsFree(out, x) <==> IsFree(given, x))
    ensures Apart(now) && Apart(out')
    ensures forall x: int :: IsFree(now, x) ==> !IsFree(out', x)
    ensures forall x: int :: IsFree(now, x) || IsFree(out', x) <==> IsFree(given, x)
    ensures forall x: int :: address <= x < address + bytes ==> IsFree(was, x)
    ensures forall x: int :: IsFree(now, x) <==> IsFree(was, x) && !(address <= x < address + bytes)
  {
    CutApart(was, k, address, bytes);
    forall x: int ensures IsFree(now, x) <==> IsFree(was, x) && !(address <= x < address + bytes) {
      CutFree(was, k, address, bytes, x);
    }
    forall x: int | address <= x < address + bytes ensures IsFree(was, x) {
      assert was[k] in was && Holds(was[k], x);
    }
    forall x: int ensures IsFree(out', x) <==> IsFree(out, x) || address <= x < address + bytes {
      OneMoreOut(out, address, bytes, x);
    }
    OutApart(was, out, address, bytes, k);
  }

  lemma OneMoreOut(out: seq<Range>, address: nat, bytes: nat, x: int)
    ensures IsFree(out + [Range(address, bytes, 1)], x) <==> IsFree(out, x) || address <= x < address + bytes
  {
    var r := Range(address, bytes, 1);
    var t := out + [r];
    if IsFree(out, x) {
      var q :| q in out && Free(q) && Holds(q, x);
      assert q in t;
    }
    if Holds(r, x) { assert r in t && Free(r); }
  }

  lemma OutApart(was: seq<Range>, out: seq<Range>, address: nat, bytes: nat, k: nat)
    requires Apart(was) && Apart(out) && k < |was| && Free(was[k]) && was[k].A <= address
      && address + bytes <= was[k].A + was[k].S
    requires forall x: int :: address <= x < address + bytes ==> !IsFree(out, x)
    ensures Apart(out + [Range(address, bytes, 1)])
  {
    var t := out + [Range(address, bytes, 1)];
    forall i, j, x: int | 0 <= i < j < |t| && Free(t[i]) && Free(t[j]) && Holds(t[i], x) ensures !Holds(t[j], x) {
      if j == |out| { assert t[i] in out && IsFree(out, x); }
    }
  }
  // ---------------------------------------------------------------- the boot mapping

  const M2: nat := 0x20_0000
  /** Present, writable, global, a 2M page. */
  const LEAF: nat := 0x183

  /** The entry maps a 2M frame all of whose bytes are out of the list, and were in was. */
  ghost predicate Frame(was: seq<Range>, now: seq<Range>, e: nat) {
    && e >= MEGA && e % M2 == LEAF
    && (forall x: int :: InFrame(e, x) ==> IsFree(was, x) && !IsFree(now, x))
  }

  /** Two frames that are not the same have no byte in common. */
  lemma FramesApart(d: nat, e: nat)
    requires d % M2 == LEAF && e % M2 == LEAF && d != e && d >= LEAF && e >= LEAF
    ensures d + M2 <= e || e + M2 <= d
  {
    var p, q := d / M2, e / M2;
    assert d == M2 * p + LEAF && e == M2 * q + LEAF;
  }

  /** The entries from lo up to hi map frames, each its own. */
  ghost predicate Filled(was: seq<Range>, now: seq<Range>, L3: seq<nat>, lo: nat, hi: nat)
    requires hi <= |L3|
  {
    && (forall i :: lo <= i < hi ==> Frame(was, now, L3[i]))
    && (forall i, j :: lo <= i < j < hi ==> L3[i] != L3[j])
  }

  /** The inner loop of BIOS/STBR64.C:454-458: a run of frames into the table. */
  method PutFrames(L3: array<nat>, idx2: nat, physicalAddress: nat, pageCount: nat)
    requires idx2 + pageCount <= L3.Length && physicalAddress % M2 == 0
    modifies L3
    ensures forall i :: 0 <= i < L3.Length ==>
              L3[i] == if idx2 <= i < idx2 + pageCount then physicalAddress + M2 * (i - idx2) + LEAF else old(L3[i])
  {
    var i := 0;
    var address := physicalAddress;
    while i < pageCount
      invariant i <= pageCount && address == physicalAddress + M2 * i
      invariant forall k :: 0 <= k < L3.Length ==> L3[k] == if idx2 <= k < idx2 + i
        then physicalAddress + M2 * (k - idx2) + LEAF else old(L3[k])
    {
      L3[idx2 + i] := address + LEAF;
      address := address + M2;
      i := i + 1;
    }
  }

  lemma RunFilled(was: seq<Range>, mid: seq<Range>, now: seq<Range>, s: seq<nat>, t: seq<nat>, lo: nat, k: nat,
      address: nat, count: nat)
    requires |t| == |s| && lo <= k && k + count <= |s| && Filled(was, mid, s, lo, k) && address % M2 == 0
      && address >= MEGA
    requires forall i :: 0 <= i < |s| ==> t[i] == if k <= i < k + count then address + M2 * (i - k) + LEAF else s[i]
    requires forall x: int :: IsFree(mid, x) ==> IsFree(was, x)
    requires forall x: int :: address <= x < address + M2 * count ==> IsFree(mid, x)
    requires forall x: int :: IsFree(now, x) <==> IsFree(mid, x) && !(address <= x < address + M2 * count)
    ensures Filled(was, now, t, lo, k + count)
  {
    forall i | k <= i < k + count ensures Frame(was, now, t[i]) && address <= t[i] - LEAF
      && t[i] - LEAF + M2 <= address + M2 * count {
      NthFrame(address, i - k);
      assert M2 * (i - k) + M2 <= M2 * count;
    }
    forall i, j | lo <= i < j < k + count ensures t[i] != t[j] {
      if i < k <= j {
        assert InFrame(t[j], t[j] - LEAF) && InFrame(s[i], s[i] - LEAF);
        assert IsFree(mid, t[j] - LEAF) && !IsFree(mid, s[i] - LEAF);
      }
    }
  }

  lemma NthFrame(address: nat, n: nat)
    requires address % M2 == 0
    ensures (address + M2 * n + LEAF) % M2 == LEAF
  {
    var q := address / M2;
    assert address + M2 * n + LEAF == M2 * (q + n) + LEAF;
    LowBits(q + n);
  }

  lemma LowBits(q: nat)
    ensures (M2 * q + LEAF) % M2 == LEAF
  {
  }

  /** x is a byte of the frame of one of the entries from lo up to hi. */
  ghost predicate InFrames(L3: seq<nat>, lo: nat, hi: nat, x: int)
    requires hi <= |L3|
  {
    exists i :: lo <= i < hi && InFrame(L3[i], x)
  }

  /** From was to now the list has lost exactly the frames of those entries. */
  ghost predicate Lost(was: seq<Range>, now: seq<Range>, L3: seq<nat>, lo: nat, hi: nat)
    requires hi <= |L3|
  {
    forall x: int :: IsFree(now, x) <==> IsFree(was, x) && !InFrames(L3, lo, hi, x)
  }

  lemma FramesMore(s: seq<nat>, t: seq<nat>, lo: nat, k: nat, address: nat, count: nat, x: int)
    requires |t| == |s| && lo <= k && k + count <= |s|
    requires forall i :: 0 <= i < |s| ==> t[i] == if k <= i < k + count then address + M2 * (i - k) + LEAF else s[i]
    ensures InFrames(t, lo, k + count, x) <==> InFrames(s, lo, k, x) || address <= x < address + M2 * count
  {
    if InFrames(s, lo, k, x) {
      var i :| lo <= i < k && InFrame(s[i], x);
      assert InFrame(t[i], x);
    }
    if address <= x < address + M2 * count {
      var n := (x - address) / M2;
      assert x - address == M2 * n + (x - address) % M2;
      assert InFrame(t[k + n], x);
    }
    if InFrames(t, lo, k + count, x) {
      var i :| lo <= i < k + count && InFrame(t[i], x);
      if i < k { assert InFrame(s[i], x); } else { assert M2 * (i - k) + M2 <= M2 * count; }
    }
  }

  lemma RunLost(was: seq<Range>, mid: seq<Range>, now: seq<Range>, s: seq<nat>, t: seq<nat>, lo: nat, k: nat,
      address: nat, count: nat)
    requires |t| == |s| && lo <= k && k + count <= |s| && Lost(was, mid, s, lo, k)
    requires forall i :: 0 <= i < |s| ==> t[i] == if k <= i < k + count then address + M2 * (i - k) + LEAF else s[i]
    requires forall x: int :: IsFree(now, x) <==> IsFree(mid, x) && !(address <= x < address + M2 * count)
    ensures Lost(was, now, t, lo, k + count)
  {
    hide IsFree, InFrames;
    forall x: int ensures IsFree(now, x) <==> IsFree(was, x) && !InFrames(t, lo, k + count, x) {
      FramesMore(s, t, lo, k, address, count, x);
    }
  }

  /** The loops of BIOS/STBR64.C:448-470: entries lo up to hi of the table get frames of their own; or the machine
      halts, with those up to done filled and no range left that suits. */
  method FillFrames(boot: BootMap, L3: array<nat>, lo: nat, hi: nat) returns (halted: bool, ghost done: nat)
    requires boot.Valid() && lo <= hi <= L3.Length
    modifies boot, L3
    ensures boot.Valid() && lo <= done <= hi && (halted <==> done < hi) && (halted ==> NoneSuits(boot.map0, 1))
    ensures Filled(old(boot.map0), boot.map0, L3[..], lo, done) && Lost(old(boot.map0), boot.map0, L3[..], lo, done)
    ensures forall i :: 0 <= i < L3.Length && !(lo <= i < done) ==> L3[i] == old(L3[i])
  {
    ghost var was := boot.map0;
    var idx2 := lo;
    halted := false;
    hide IsFree, BootMap.Valid, Apart, Grants, Suits;
    while idx2 < hi
      invariant lo <= idx2 <= hi && boot.Valid() && Filled(was, boot.map0, L3[..], lo, idx2)
        && Lost(was, boot.map0, L3[..], lo, idx2)
      invariant forall i :: 0 <= i < L3.Length && !(lo <= i < idx2) ==> L3[i] == old(L3[i])
    {
      ghost var mid, s := boot.map0, L3[..];
      var physicalAddress, pageCount;
      halted, physicalAddress, pageCount := boot.allocate_physical(1, hi - idx2);
      if halted {
        return true, idx2;
      }
      TwoMegs(physicalAddress, pageCount);
      PutFrames(L3, idx2, physicalAddress, pageCount);
      RunFilled(was, mid, boot.map0, s, L3[..], lo, idx2, physicalAddress, pageCount);
      RunLost(was, mid, boot.map0, s, L3[..], lo, idx2, physicalAddress, pageCount);
      idx2 := idx2 + pageCount;
    }
    done := hi;
  }

  lemma TwoMegs(address: nat, count: nat)
    ensures Bytes(count, 1) == M2 * count && (Aligned(address, 1) <==> address % M2 == 0)
  {
  }

  ghost predicate InTables(tables: seq<nat>, x: int) {
    exists j :: 0 <= j < |tables| && InPage(tables[j], x)
  }

  /** From was to now the list has lost exactly those tables, and the frames of the entries up to low and from 0x1F8 up
      to high. */
  ghost predicate Spent(was: seq<Range>, now: seq<Range>, tables: seq<nat>, L3: seq<nat>, low: nat, high: nat)
    requires low <= |L3| && high <= |L3|
  {
    forall x: int :: IsFree(now, x) <==>
      IsFree(was, x) && !InTables(tables, x) && !InFrames(L3, 0, low, x) && !InFrames(L3, 0x1F8, high, x)
  }

  /** Tables are aligned pages of usable memory at or above 1M, no two the same. */
  ghost predicate GoodTables(was: seq<Range>, tables: seq<nat>) {
    && (forall j :: 0 <= j < |tables| ==> tables[j] % 0x1000 == 0 && tables[j] >= MEGA)
    && (forall j, x: int :: 0 <= j < |tables| && InPage(tables[j], x) ==> IsFree(was, x))
    && (forall i, j :: 0 <= i < j < |tables| ==> tables[i] != tables[j])
  }

  lemma OneTableMore(was: seq<Range>, mid: seq<Range>, tables: seq<nat>, page: nat)
    requires GoodTables(was, tables) && Aligned(page, 0) && page >= MEGA
    requires forall x: int :: IsFree(mid, x) <==> IsFree(was, x) && !InTables(tables, x)
    requires forall x: int :: page <= x < page + 0x1000 ==> IsFree(mid, x)
    ensures GoodTables(was, tables + [page])
  {
    hide IsFree;
    assert Aligned(page, 0) ==> page % 0x1000 == 0;
    assert IsFree(mid, page) && !InTables(tables, page);
    forall i | 0 <= i < |tables| ensures tables[i] != page {
      assert InPage(tables[i], tables[i]) && InTables(tables, tables[i]);
    }
  }

  lemma TablesMore(tables: seq<nat>, page: nat, x: int)
    ensures InTables(tables + [page], x) <==> InTables(tables, x) || InPage(page, x)
  {
    var t := tables + [page];
    if InTables(tables, x) {
      var j :| 0 <= j < |tables| && InPage(tables[j], x);
      assert InPage(t[j], x);
    }
    if InPage(page, x) { assert InPage(t[|tables|], x); }
  }

  lemma FramesStill(s: seq<nat>, t: seq<nat>, lo: nat, hi: nat)
    requires lo <= hi <= |s| && |t| == |s| && forall i :: lo <= i < hi ==> t[i] == s[i]
    ensures forall x: int :: InFrames(t, lo, hi, x) <==> InFrames(s, lo, hi, x)
  {
    forall x: int ensures InFrames(t, lo, hi, x) <==> InFrames(s, lo, hi, x) {
      if InFrames(s, lo, hi, x) {
        var i :| lo <= i < hi && InFrame(s[i], x);
        assert InFrame(t[i], x);
      }
    }
  }

  /** The four tables. */
  method TakeTables(boot: BootMap) returns (halted: bool, tables: seq<nat>)
    requires boot.Valid()
    modifies boot
    ensures boot.Valid() && |tables| <= 4 && (halted <==> |tables| < 4) && (halted ==> NoneSuits(boot.map0, 0))
    ensures forall x: int :: IsFree(boot.map0, x) <==> IsFree(old(boot.map0), x) && !InTables(tables, x)
    ensures GoodTables(old(boot.map0), tables)
  {
    hide IsFree, BootMap.Valid, Apart, Grants, InTables, Suits, GoodTables, Aligned;
    ghost var was := boot.map0;
    tables := [];
    NoTables(was);
    var i := 0;
    while i < 4
      invariant i <= 4 && |tables| == i && boot.Valid() && GoodTables(was, tables)
      invariant forall x: int :: IsFree(boot.map0, x) <==> IsFree(was, x) && !InTables(tables, x)
    {
      ghost var mid, before := boot.map0, tables;
      var page, count;
      halted, page, count := boot.allocate_physical(0, 1);
      if halted {
        return;
      }
      OnePage();
      OneTableMore(was, mid, tables, page);
      tables := tables + [page];
      i := i + 1;
      forall x: int ensures IsFree(boot.map0, x) <==> IsFree(was, x) && !InTables(tables, x) {
        TablesMore(before, page, x);
      }
    }
    halted := false;
  }

  lemma NoTables(was: seq<Range>)
    ensures (forall x: int :: !InTables([], x)) && GoodTables(was, [])
  {
  }

  /** setup_paging of the boot loader: four tables and two runs of eight frames, 16 frames of 2M in all, no two the
      same, none a table, all out of memory the BIOS calls usable; the table L3 holds nothing else. The list loses
      exactly those. It halts only when no range is left that suits. */
  method setup_paging(boot: BootMap, L3: array<nat>)
      returns (halted: bool, tables: seq<nat>, ghost low: nat, ghost high: nat)
    requires boot.Valid() && L3.Length == 512
    modifies boot, L3
    ensures boot.Valid()
    ensures !halted ==> SixteenFrames(old(boot.map0), boot.map0, L3[..], tables)
    ensures halted ==> NoneSuits(boot.map0, if |tables| < 4 then 0 else 1)
    ensures |tables| <= 4 && low <= 8 && 0x1F8 <= high <= 0x200
    ensures halted <==> |tables| < 4 || low < 8 || high < 0x200
    ensures GoodTables(old(boot.map0), tables) && Spent(old(boot.map0), boot.map0, tables, L3[..], low, high)
    ensures |tables| == 4 ==> forall i :: 0 <= i < 512 && !(i < low || 0x1F8 <= i < high) ==> L3[i] == 0
  {
    hide IsFree, BootMap.Valid, Apart, Grants, Filled, InTables, InFrames, NoneSuits, GoodTables;
    ghost var was := boot.map0;
    low, high := 0, 0x1F8;
    NoFrames();
    halted, tables := TakeTables(boot);
    if halted {
      return;
    }
    forall i | 0 <= i < L3.Length {
      L3[i] := 0;
    }
    TablesApart(tables);
    ghost var tabled := boot.map0;
    halted, high := FillFrames(boot, L3, 0x1F8, 0x200);
    if halted {
      return;
    }
    ghost var s, mid := L3[..], boot.map0;
    halted, low := FillFrames(boot, L3, 0, 8);
    FramesStill(s, L3[..], 0x1F8, 0x200);
    if !halted {
      BothRuns(was, tabled, mid, boot.map0, s, L3[..], tables);
    }
  }

  lemma NoFrames()
    ensures forall L3: seq<nat>, x: int :: !InFrames(L3, 0, 0, x)
    ensures forall L3: seq<nat>, x: int :: |L3| >= 0x1F8 ==> !InFrames(L3, 0x1F8, 0x1F8, x)
  {
  }

  lemma TablesApart(tables: seq<nat>)
    ensures forall j, x: int :: 0 <= j < |tables| && InPage(tables[j], x) ==> InTables(tables, x)
  {
  }

  lemma OnePage()
    ensures Bytes(1, 0) == 0x1000
  {
  }

  /** The sixteen entries. */
  predicate Slot(i: nat) { i < 8 || 0x1F8 <= i < 0x200 }

  ghost predicate InFrame(e: nat, x: int) { e - LEAF <= x < e - LEAF + M2 }

  ghost predicate InPage(page: nat, x: int) { page <= x < page + 0x1000 }

  ghost predicate SixteenFrames(was: seq<Range>, now: seq<Range>, L3: seq<nat>, tables: seq<nat>)
    requires |L3| == 512
  {
    && |tables| == 4
    && (forall i: nat :: Slot(i) ==> Frame(was, now, L3[i]))
    && (forall i: nat, j: nat :: Slot(i) && Slot(j) && i < j ==> L3[i] != L3[j])
    && (forall i: nat, k: nat, x: int :: Slot(i) && k < 4 && InFrame(L3[i], x) ==> !InPage(tables[k], x))
  }

  lemma BothRuns(was: seq<Range>, tabled: seq<Range>, mid: seq<Range>, now: seq<Range>, s: seq<nat>, t: seq<nat>,
      tables: seq<nat>)
    requires |s| == |t| == 512 && |tables| == 4
    requires Filled(tabled, mid, s, 0x1F8, 0x200) && Filled(mid, now, t, 0, 8)
    requires forall i :: 8 <= i < 512 ==> t[i] == s[i]
    requires forall x: int :: IsFree(now, x) ==> IsFree(mid, x)
    requires forall x: int :: IsFree(mid, x) ==> IsFree(tabled, x)
    requires forall x: int :: IsFree(tabled, x) ==> IsFree(was, x)
    requires forall j, x: int :: 0 <= j < 4 && InPage(tables[j], x) ==> !IsFree(tabled, x)
    ensures SixteenFrames(was, now, t, tables)
  {
    hide IsFree;
    forall i: nat | Slot(i) ensures Frame(was, now, t[i]) && Frame(tabled, now, t[i]) {
      assert if i < 8 then Frame(mid, now, t[i]) else Frame(tabled, mid, s[i]);
    }
    forall i: nat, j: nat | Slot(i) && Slot(j) && i < j ensures t[i] != t[j] {
      if i < 8 <= j {
        assert Frame(mid, now, t[i]) && Frame(tabled, mid, s[j]);
        assert InFrame(t[i], t[i] - LEAF) && InFrame(s[j], s[j] - LEAF);
        assert IsFree(mid, t[i] - LEAF) && !IsFree(mid, s[j] - LEAF);
      }
    }
  }
}
