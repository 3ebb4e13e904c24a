/** EFI/main.c: from the UEFI memory map to the regions that the loader and the kernel are given, and what setup_paging
    of KERNEL/SOURCE/memory/page.c loads from such a list. */
module EfiMemoryMap {
  import opened Intervals
  import opened AvlTree
  import opened MemoryMaps
  import opened Physical

  /** A UEFI memory descriptor: type, physical and virtual start, number of 4K pages, attributes. */
  datatype Descriptor = Descriptor(T: nat, A: nat, V: nat, N: nat, X: nat)

  /** A region of the kernel's map: base, length and class. */
  datatype Region = Region(A: nat, L: nat, F: nat, X: nat)

  function End(d: Descriptor): nat { d.A + 4096 * d.N }

  ghost predicate Covers(d: Descriptor, x: int) { d.A <= x < End(d) }

  /** What the firmware says of byte x. */
  ghost predicate HasType(ds: seq<Descriptor>, x: int, t: nat) {
    exists d :: d in ds && Covers(d, x) && d.T == t
  }

  /** Descriptors as firmware gives them: at least one page each, no two with a byte in common, none beyond the last
      QWORD. */
  ghost predicate Disjoint(ds: seq<Descriptor>) {
    && (forall i :: 0 <= i < |ds| ==> ds[i].N > 0 && End(ds[i]) < QWORDS)
    && (forall i, j :: 0 <= i < j < |ds| ==> End(ds[i]) <= ds[j].A || End(ds[j]) <= ds[i].A)
  }

  ghost predicate Ascending(ds: seq<Descriptor>) {
    forall i, j :: 0 <= i < j < |ds| ==> ds[i].A <= ds[j].A
  }

  /** One after another without overlap. */
  ghost predicate Ordered(ds: seq<Descriptor>) {
    && (forall i :: 0 <= i < |ds| ==> ds[i].N > 0 && End(ds[i]) < QWORDS)
    && (forall i, j :: 0 <= i < j < |ds| ==> End(ds[i]) <= ds[j].A)
  }

  lemma AscendingOrdered(ds: seq<Descriptor>)
    requires Disjoint(ds) && Ascending(ds)
    ensures Ordered(ds)
  {
  }

  // ---------------------------------------------------------------- sorting

  /** The inner loop of `SortMemoryMap`: the first of the lowest descriptors from i on. */
  method Lowest(map0: array<Descriptor>, i: nat, count: nat) returns (min: nat)
    requires i < count <= map0.Length
    ensures i <= min < count && forall j :: i <= j < count ==> map0[min].A <= map0[j].A
  {
    min := i;
    var j := i + 1;
    while j < count
      invariant i <= min < j <= count && forall k :: i <= k < j ==> map0[min].A <= map0[k].A
    {
      if map0[j].A < map0[min].A {
        min := j;
      }
      j := j + 1;
    }
  }

  /** Two descriptors change places. */
  lemma Swapped(s: seq<Descriptor>, t: seq<Descriptor>, i: nat, j: nat)
    requires i < |s| && j < |s| && t == s[i := s[j]][j := s[i]]
    ensures multiset(t) == multiset(s)
  {
  }

  /** `SortMemoryMap`. */
  method SortMemoryMap(map0: array<Descriptor>, count: nat)
    requires count <= map0.Length
    modifies map0
    ensures Ascending(map0[..count]) && multiset(map0[..count]) == multiset(old(map0[..count]))
    ensures map0[count..] == old(map0[count..])
  {
    var i := 0;
    while i < count
      invariant i <= count && multiset(map0[..count]) == multiset(old(map0[..count]))
        && map0[count..] == old(map0[count..])
      invariant forall j, k :: 0 <= j < i && j < k < count ==> map0[j].A <= map0[k].A
    {
      var min := Lowest(map0, i, count);
      if min != i {
        ghost var was := map0[..count];
        var desc := map0[i];
        map0[i] := map0[min];
        map0[min] := desc;
        assert map0[..count] == was[i := was[min]][min := was[i]];
        Swapped(was, map0[..count], i, min);
      }
      i := i + 1;
    }
  }

  /** Sorting says the same of every byte, and keeps the descriptors apart. */
  lemma SameTypes(s: seq<Descriptor>, t: seq<Descriptor>)
    requires multiset(s) == multiset(t)
    ensures forall x: int, y: nat :: HasType(s, x, y) <==> HasType(t, x, y)
  {
    forall d ensures d in s <==> d in t {
      assert d in s <==> d in multiset(s);
      assert d in t <==> d in multiset(t);
    }
  }

  lemma {:induction false} SortedDisjoint(s: seq<Descriptor>, t: seq<Descriptor>)
    requires multiset(s) == multiset(t) && Disjoint(s)
    ensures Disjoint(t)
  {
    forall i | 0 <= i < |t| ensures t[i].N > 0 && End(t[i]) < QWORDS {
      assert t[i] in multiset(t) && t[i] in multiset(s) && t[i] in s;
    }
    forall i, j | 0 <= i < j < |t| ensures End(t[i]) <= t[j].A || End(t[j]) <= t[i].A {
      TwoOf(s, t, i, j);
    }
  }

  lemma Drop(s: seq<Descriptor>, k: nat)
    requires k < |s|
    ensures multiset(s[..k] + s[k + 1..]) == multiset(s) - multiset{s[k]}
  {
    assert s == s[..k] + [s[k]] + s[k + 1..];
  }

  lemma PlaceOf(s: seq<Descriptor>, d: Descriptor) returns (k: nat)
    requires d in multiset(s)
    ensures k < |s| && s[k] == d
  {
    assert d in s;
    k :| 0 <= k < |s| && s[k] == d;
  }

  /** Two places of a permutation come from two places. */
  lemma TwoOf(s: seq<Descriptor>, t: seq<Descriptor>, i: nat, j: nat)
    requires multiset(s) == multiset(t) && i < j < |t|
    ensures exists k, l :: 0 <= k < |s| && 0 <= l < |s| && k != l && s[k] == t[i] && s[l] == t[j]
  {
    assert t[i] in multiset(t);
    var k := PlaceOf(s, t[i]);
    Drop(s, k);
    Drop(t, i);
    var r, q := s[..k] + s[k + 1..], t[..i] + t[i + 1..];
    assert q[j - 1] == t[j];
    assert t[j] in multiset(q);
    var l := PlaceOf(r, t[j]);
    assert s[if l < k then l else l + 1] == t[j];
  }

  // ---------------------------------------------------------------- compaction

  /** The two could be one. */
  ghost predicate Mergeable(d: Descriptor, e: Descriptor) {
    e.T == d.T && End(d) == e.A
  }

  /** Half way: the first i + 1 descriptors say what the first j did, and no two of them could be one. */
  ghost predicate Compacted(was: seq<Descriptor>, s: seq<Descriptor>, i: nat, j: nat, count: nat) {
    && i < j <= count <= |was| == |s| && s[j..] == was[j..] && s[0].A == was[0].A
    && (forall x: int, t: nat :: HasType(s[..i + 1], x, t) <==> HasType(was[..j], x, t))
    && (forall k :: 0 < k <= i ==> !Mergeable(s[k - 1], s[k]))
    && (Ordered(was[..count]) ==> Ordered(s[..i + 1]) && End(s[i]) == End(was[j - 1]))
  }

  lemma CompactStarts(was: seq<Descriptor>, count: nat)
    requires 0 < count <= |was|
    ensures Compacted(was, was, 0, 1, count)
  {
    if Ordered(was[..count]) { assert was[..count][0] == was[0]; }
  }

  lemma CompactGrows(was: seq<Descriptor>, s: seq<Descriptor>, i: nat, j: nat, count: nat, t: seq<Descriptor>)
    requires Compacted(was, s, i, j, count) && j < count && Mergeable(s[i], s[j])
      && t == s[i := s[i].(N := s[i].N + s[j].N)]
    ensures Compacted(was, t, i, j + 1, count)
  {
    assert s[j] == s[j..][0] == was[j];
    assert t[..i + 1] == s[..i + 1][i := t[i]];
    Grow(s[..i + 1], was, i, j, t[..i + 1], count);
    if i > 0 { StillApart(s[i - 1], s[i], t[i]); }
    hide HasType, Ordered, Mergeable;
    assert t[j + 1..] == s[j..][1..];
  }

  lemma CompactMoves(was: seq<Descriptor>, s: seq<Descriptor>, i: nat, j: nat, count: nat, t: seq<Descriptor>)
    requires Compacted(was, s, i, j, count) && j < count && !Mergeable(s[i], s[j]) && t == s[i + 1 := s[j]]
    ensures Compacted(was, t, i + 1, j + 1, count)
  {
    assert s[j] == s[j..][0] == was[j];
    assert t[..i + 2] == s[..i + 1] + [was[j]];
    Append(s[..i + 1], was, j, t[..i + 2], count);
    hide HasType, Ordered, Mergeable;
    assert t[j + 1..] == s[j..][1..];
  }

  lemma CompactEnds(was: seq<Descriptor>, s: seq<Descriptor>, i: nat, count: nat)
    requires Compacted(was, s, i, count, count)
    ensures forall x: int, t: nat :: HasType(s[..i + 1], x, t) <==> HasType(was[..count], x, t)
    ensures forall k :: 0 < k < i + 1 ==> !Mergeable(s[k - 1], s[k])
    ensures s[0].A == was[0].A && (Ordered(was[..count]) ==> Ordered(s[..i + 1]))
  {
  }

  /** `CompactMemoryMap`: how many descriptors are left in front; of an empty map it says that one is. */
  method CompactMemoryMap(map0: array<Descriptor>, count: nat) returns (left: nat)
    requires count <= map0.Length
    modifies map0
    ensures if count == 0 then left == 1 && map0[..] == old(map0[..]) else 0 < left <= count
    ensures count > 0 ==> forall x: int, t: nat :: HasType(map0[..left], x, t) <==> HasType(old(map0[..count]), x, t)
    ensures count > 0 ==> forall i :: 0 < i < left ==> !Mergeable(map0[i - 1], map0[i])
    ensures count > 0 ==> map0[0].A == old(map0[0].A)
    ensures count > 0 && Ordered(old(map0[..count])) ==> Ordered(map0[..left])
  {
    hide HasType, Ordered, Compacted;
    ghost var was := map0[..];
    if count > 0 { CompactStarts(was, count); }
    var i: nat := 0;
    var j: nat := 1;
    while j < count
      invariant count == 0 ==> i == 0 && map0[..] == was
      invariant count > 0 ==> i < j <= count && Compacted(was, map0[..], i, j, count)
    {
      ghost var s := map0[..];
      if map0[j].T == map0[i].T && map0[i].A + map0[i].N * 4096 == map0[j].A {
        map0[i] := map0[i].(N := map0[i].N + map0[j].N);
        CompactGrows(was, s, i, j, count, map0[..]);
      } else {
        CompactMoves(was, s, i, j, count, s[i + 1 := s[j]]);
        i := i + 1;
        if i != j {
          map0[i] := map0[j];
        }
        assert map0[..] == s[i := s[j]];
      }
      j := j + 1;
    }
    left := i + 1;
    if count == 0 {
      return;
    }
    CompactEnds(was, map0[..], i, count);
    assert map0[..left] == map0[..][..left] && was[..count] == old(map0[..count]);
    forall k | 0 < k < left ensures !Mergeable(map0[k - 1], map0[k]) {
      assert map0[..][k] == map0[k] && map0[..][k - 1] == map0[k - 1];
    }
  }

  lemma StillApart(p: Descriptor, d: Descriptor, d': Descriptor)
    requires d'.A == d.A && d'.T == d.T
    ensures Mergeable(p, d') == Mergeable(p, d)
  {
  }

  /** The last descriptor takes in the next one. */
  lemma Grow(s: seq<Descriptor>, was: seq<Descriptor>, i: nat, j: nat, t: seq<Descriptor>, count: nat)
    requires |s| == i + 1 && i < j < count <= |was| && Mergeable(s[i], was[j])
      && t == s[i := s[i].(N := s[i].N + was[j].N)]
    requires forall x: int, y: nat :: HasType(s, x, y) <==> HasType(was[..j], x, y)
    requires Ordered(was[..count]) ==> Ordered(s) && End(s[i]) == End(was[j - 1])
    ensures forall x: int, y: nat :: HasType(t, x, y) <==> HasType(was[..j + 1], x, y)
    ensures Ordered(was[..count]) ==> Ordered(t) && End(t[i]) == End(was[j])
  {
    forall x: int, y: nat ensures HasType(t, x, y) <==> HasType(was[..j + 1], x, y) {
      TypeSplit(s[..i], s[i], s, x, y);
      TypeSplit(s[..i], t[i], t, x, y);
      TypeSplit(was[..j], was[j], was[..j + 1], x, y);
    }
    if Ordered(was[..count]) {
      assert was[..count][j] == was[j];
      forall k, l | 0 <= k < l < |t| ensures End(t[k]) <= t[l].A { assert End(s[k]) <= s[l].A; }
    }
  }

  lemma Append(s: seq<Descriptor>, was: seq<Descriptor>, j: nat, t: seq<Descriptor>, count: nat)
    requires |s| > 0 && 0 < j < count <= |was| && t == s + [was[j]]
    requires forall x: int, y: nat :: HasType(s, x, y) <==> HasType(was[..j], x, y)
    requires Ordered(was[..count]) ==> Ordered(s) && End(s[|s| - 1]) == End(was[j - 1])
    ensures forall x: int, y: nat :: HasType(t, x, y) <==> HasType(was[..j + 1], x, y)
    ensures Ordered(was[..count]) ==> Ordered(t)
  {
    forall x: int, y: nat ensures HasType(t, x, y) <==> HasType(was[..j + 1], x, y) {
      TypeSplit(s, was[j], t, x, y);
      TypeSplit(was[..j], was[j], was[..j + 1], x, y);
    }
    if Ordered(was[..count]) {
      assert was[..count][j] == was[j] && was[..count][j - 1] == was[j - 1];
      forall k | 0 <= k < |s| ensures End(s[k]) <= was[j].A {
        assert k < |s| - 1 ==> End(s[k]) <= s[|s| - 1].A;
      }
    }
  }

  lemma TypeSplit(s: seq<Descriptor>, d: Descriptor, t: seq<Descriptor>, x: int, y: nat)
    requires t == s + [d]
    ensures HasType(t, x, y) <==> HasType(s, x, y) || (Covers(d, x) && d.T == y)
  {
    if HasType(s, x, y) {
      var e :| e in s && Covers(e, x) && e.T == y;
      assert e in t;
    }
    if Covers(d, x) && d.T == y { assert d in t; }
  }
  // ---------------------------------------------------------------- classes

  /** EFI/main.c:603-622: 2 reserved, 3 ACPI tables, 4 ACPI storage, 5 unusable, 1 free. */
  function ClassOf(t: nat): nat {
    match t
    case 0 => 2
    case 11 => 2
    case 12 => 2
    case 9 => 3
    case 10 => 4
    case 8 => 5
    case _ => 1
  }

  /** Memory that the kernel may not use: of type 0, reserved, or 8 to 12: unusable, ACPI tables, ACPI storage,
      memory-mapped IO and IO ports (section 7.2 of the UEFI specification 2.9). */
  predicate Special(t: nat) { t == 0 || 8 <= t <= 12 }

  /** What the types that the firmware gives to byte x make of it. */
  ghost predicate DescribedAs(ds: seq<Descriptor>, x: int, f: nat) {
    || (f == 1 && exists t: nat :: HasType(ds, x, t) && !Special(t))
    || (f == 2 && (HasType(ds, x, 0) || HasType(ds, x, 11) || HasType(ds, x, 12)))
    || (f == 3 && HasType(ds, x, 9))
    || (f == 4 && HasType(ds, x, 10))
    || (f == 5 && HasType(ds, x, 8))
  }

  ghost predicate Inside(r: Region, x: int) { r.A <= x < r.A + r.L }

  ghost predicate HasClass(rs: seq<Region>, x: int, f: nat) {
    exists r :: r in rs && Inside(r, x) && r.F == f
  }

  function RegionOf(d: Descriptor): Region {
    Region(d.A, d.N * 4096, ClassOf(d.T), 0)
  }

  /** One round of the loop of EFI/main.c:585-636. */
  function AddRegion(rs: seq<Region>, r: Region): seq<Region>
    requires rs != []
  {
    var k := |rs| - 1;
    var beg := rs[k];
    if beg.F == 0xFF then rs[k := beg.(F := r.F, L := beg.L + r.L)]
    else if beg.F == r.F && beg.A + beg.L == r.A then rs[k := beg.(L := beg.L + r.L)]
    else rs + [r]
  }

  function Regions(ds: seq<Descriptor>): (rs: seq<Region>)
    ensures 0 < |rs| <= |ds| + 1
    ensures rs[|rs| - 1].F == 0xFF <==> ds == []
    ensures ds != [] ==> |rs| <= |ds|
  {
    if ds == [] then [Region(0, 0, 0xFF, 0)] else AddRegion(Regions(ds[..|ds| - 1]), RegionOf(ds[|ds| - 1]))
  }

  /** The loop of EFI/main.c:582-637: the regions written from 0x3020 on, and how many. */
  method Translate(map0: array<Descriptor>, entries: nat, regions: array<Region>) returns (n: nat)
    requires entries <= map0.Length && regions.Length > entries
    modifies regions
    ensures 0 < n <= regions.Length && regions[..n] == Regions(map0[..entries])
  {
    hide Regions, AddRegion, ClassOf;
    var beg: nat := 0;
    regions[0] := Region(0, 0, 0xFF, 0);
    NoRegions();
    assert map0[..0] == [];
    var i: nat := 0;
    while i < entries
      invariant i <= entries && beg <= i && beg < regions.Length && (i > 0 ==> beg < i)
      invariant regions[..beg + 1] == Regions(map0[..i])
    {
      var memory := map0[i];
      var region := Region(memory.A, memory.N * 4096, ClassOf(memory.T), 0);
      ghost var rs := regions[..beg + 1];
      OneMore(map0[..i], memory, map0[..i + 1]);
      Added(rs, region, beg);
      if regions[beg].F == 0xFF || (regions[beg].F == region.F && regions[beg].A + regions[beg].L == region.A) {
        if regions[beg].F == 0xFF {
          regions[beg] := regions[beg].(F := region.F);
        }
        regions[beg] := regions[beg].(L := regions[beg].L + region.L);
        assert regions[..beg + 1] == rs[beg := regions[beg]];
      } else {
        beg := beg + 1;
        regions[beg] := region;
        assert regions[..beg + 1] == rs + [region];
      }
      i := i + 1;
    }
    n := beg + 1;
  }

  lemma NoRegions()
    ensures Regions([]) == [Region(0, 0, 0xFF, 0)]
  {
  }

  lemma {:induction false} OneMore(ds: seq<Descriptor>, d: Descriptor, es: seq<Descriptor>)
    requires es == ds + [d]
    ensures Regions(es) == AddRegion(Regions(ds), RegionOf(d))
  {
    assert es[..|es| - 1] == ds && es[|es| - 1] == d;
    hide AddRegion, RegionOf;
  }

  lemma Added(rs: seq<Region>, r: Region, k: nat)
    requires k + 1 == |rs|
    ensures AddRegion(rs, r) == if rs[k].F == 0xFF then rs[k := rs[k].(F := r.F, L := rs[k].L + r.L)]
                                else if rs[k].F == r.F && rs[k].A + rs[k].L == r.A
                                  then rs[k := rs[k].(L := rs[k].L + r.L)]
                                else rs + [r]
  {
  }

  /** Regions in order, none empty, that end where the descriptors end. */
  ghost predicate InOrder(rs: seq<Region>, end: nat) {
    && rs != [] && rs[0].A == 0 && rs[|rs| - 1].A + rs[|rs| - 1].L == end < QWORDS
    && (forall i :: 0 <= i < |rs| ==> rs[i].L > 0)
    && (forall i, j :: 0 <= i < j < |rs| ==> rs[i].A + rs[i].L <= rs[j].A)
  }

  /** With the lowest descriptor at 0 the regions say of every byte what the descriptors say. */
  lemma {:induction false} RegionsKeepClasses(ds: seq<Descriptor>)
    requires Ordered(ds) && ds != [] && ds[0].A == 0
    ensures InOrder(Regions(ds), End(ds[|ds| - 1]))
    ensures forall x: int, f: nat :: HasClass(Regions(ds), x, f) <==> DescribedAs(ds, x, f)
    decreases |ds|
  {
    hide Regions, HasClass, DescribedAs, AddRegion, ClassOf, HasType;
    var k := |ds| - 1;
    var d, t := ds[k], ds[..k];
    assert ds == t + [d];
    if t == [] {
      FirstRegion(d);
      assert ds == [d];
      forall x: int, f: nat ensures HasClass(Regions(ds), x, f) <==> DescribedAs(ds, x, f) {
        FirstDescribed(d, x, f);
      }
    } else {
      assert Ordered(t) && End(t[k - 1]) <= d.A by { assert t[k - 1] == ds[k - 1]; }
      RegionsKeepClasses(t);
      OneMore(t, d, ds);
      LastRegion(t);
      AddsRegion(Regions(t), d, End(t[k - 1]));
      forall x: int, f: nat ensures HasClass(Regions(ds), x, f) <==> DescribedAs(ds, x, f) {
        DescribedSplit(t, d, ds, x, f);
        AddedClass(Regions(t), RegionOf(d), x, f);
      }
    }
  }

  lemma {:induction false} LastRegion(ds: seq<Descriptor>)
    requires ds != []
    ensures Regions(ds)[|Regions(ds)| - 1].F != 0xFF
  {
  }

  lemma FirstDescribed(d: Descriptor, x: int, f: nat)
    ensures HasClass([RegionOf(d)], x, f) <==> DescribedAs([d], x, f)
  {
    assert [d] == [] + [d] && [RegionOf(d)] == [] + [RegionOf(d)];
    DescribedSplit([], d, [d], x, f);
    ClassSplit([], RegionOf(d), [RegionOf(d)], x, f);
  }

  lemma FirstRegion(d: Descriptor)
    requires d.A == 0
    ensures Regions([d]) == [RegionOf(d)]
  {
    assert [d][..0] == [];
    assert Regions([]) == [Region(0, 0, 0xFF, 0)];
  }

  lemma AddsRegion(rs: seq<Region>, d: Descriptor, end: nat)
    requires InOrder(rs, end) && end <= d.A && d.N > 0 && End(d) < QWORDS && rs[|rs| - 1].F != 0xFF
    ensures InOrder(AddRegion(rs, RegionOf(d)), End(d))
  {
    forall i | 0 <= i < |rs| ensures rs[i].A + rs[i].L <= d.A {
      assert i < |rs| - 1 ==> rs[i].A + rs[i].L <= rs[|rs| - 1].A;
    }
  }

  lemma AddedClass(rs: seq<Region>, r: Region, x: int, f: nat)
    requires rs != [] && rs[|rs| - 1].F != 0xFF
    ensures HasClass(AddRegion(rs, r), x, f) <==> HasClass(rs, x, f) || (Inside(r, x) && r.F == f)
  {
    var k := |rs| - 1;
    ClassSplit(rs[..k], rs[k], rs, x, f);
    if rs[k].F == r.F && rs[k].A + rs[k].L == r.A {
      ClassSplit(rs[..k], rs[k].(L := rs[k].L + r.L), AddRegion(rs, r), x, f);
    } else {
      ClassSplit(rs, r, rs + [r], x, f);
    }
  }

  lemma ClassSplit(s: seq<Region>, r: Region, t: seq<Region>, x: int, f: nat)
    requires t == s + [r]
    ensures HasClass(t, x, f) <==> HasClass(s, x, f) || (Inside(r, x) && r.F == f)
  {
    if HasClass(s, x, f) {
      var e :| e in s && Inside(e, x) && e.F == f;
      assert e in t;
    }
    if Inside(r, x) && r.F == f { assert r in t; }
  }

  lemma DescribedSplit(s: seq<Descriptor>, d: Descriptor, t: seq<Descriptor>, x: int, f: nat)
    requires t == s + [d]
    ensures DescribedAs(t, x, f) <==> DescribedAs(s, x, f) || (Covers(d, x) && ClassOf(d.T) == f)
  {
    forall y: nat ensures HasType(t, x, y) <==> HasType(s, x, y) || (Covers(d, x) && d.T == y) {
      TypeSplit(s, d, t, x, y);
    }
    if Covers(d, x) { assert HasType(t, x, d.T); }
  }

  /** The first region starts at 0 whatever the first descriptor says. */
  lemma {:induction false} FirstBaseIsZero(ds: seq<Descriptor>)
    requires ds != [] && forall i :: 0 <= i < |ds| ==> ds[i].N > 0
    ensures var r := Regions(ds)[0]; r.A == 0 && r.L > 0
    decreases |ds|
  {
    var k := |ds| - 1;
    if k == 0 {
      assert Regions(ds[..0]) == [Region(0, 0, 0xFF, 0)];
    } else {
      FirstBaseIsZero(ds[..k]);
    }
  }

  /** So every byte keeps its class just when the lowest descriptor starts at 0. */
  lemma {:induction false} ClassesKeptIff(ds: seq<Descriptor>)
    requires Ordered(ds) && ds != []
    ensures (forall x: int, f: nat :: HasClass(Regions(ds), x, f) <==> DescribedAs(ds, x, f)) <==> ds[0].A == 0
  {
    if ds[0].A == 0 {
      RegionsKeepClasses(ds);
    } else {
      FirstBaseIsZero(ds);
      var rs := Regions(ds);
      assert rs[0] in rs && Inside(rs[0], 0) && HasClass(rs, 0, rs[0].F);
      forall t: nat ensures !HasType(ds, 0, t) {
        forall d | d in ds ensures !Covers(d, 0) {
          var i :| 0 <= i < |ds| && ds[i] == d;
          assert i > 0 ==> End(ds[0]) <= ds[i].A;
        }
      }
      assert !DescribedAs(ds, 0, rs[0].F);
    }
  }

  lemma {:induction false} RegionsSmall(ds: seq<Descriptor>)
    ensures forall i :: 0 <= i < |Regions(ds)| ==> Regions(ds)[i].F < 0x100 && Regions(ds)[i].X == 0
    decreases |ds|
  {
    if ds != [] { RegionsSmall(ds[..|ds| - 1]); }
  }

  // ---------------------------------------------------------------- loading

  /** A list that can be loaded: no two free regions have a byte in common, none wraps. Empty ones, and any order, will
      do. */
  ghost predicate Loadable(rs: seq<Region>) {
    && (forall i :: 0 <= i < |rs| && rs[i].F == 1 ==> rs[i].A + rs[i].L < QWORDS)
    && (forall i, j, x: int :: 0 <= i < j < |rs| && rs[i].F == 1 && rs[j].F == 1 && Inside(rs[i], x) ==>
          !Inside(rs[j], x))
  }

  lemma InOrderLoadable(rs: seq<Region>, end: nat)
    requires InOrder(rs, end)
    ensures Loadable(rs)
  {
    forall i | 0 <= i < |rs| ensures rs[i].A + rs[i].L < QWORDS {
      assert i < |rs| - 1 ==> rs[i].A + rs[i].L <= rs[|rs| - 1].A;
    }
  }

  /** The loop of setup_paging (page.c:303-315). */
  method LoadRegions(frames: MemoryMap, regions: seq<Region>)
    requires Healthy(frames) && frames.Entries() == [] && Loadable(regions)
    modifies frames, frames.Repr
    ensures Healthy(frames) && fresh(frames.Repr - old(frames.Repr))
    ensures forall x: int :: Has(frames.Entries(), x) <==> HasClass(regions, x, 1)
  {
    var i := 0;
    hide MemoryMap.Valid, EntriesOf;
    while i < |regions|
      invariant i <= |regions| && Healthy(frames) && fresh(frames.Repr - old(frames.Repr))
      invariant forall x: int :: Has(frames.Entries(), x) <==> HasClass(regions[..i], x, 1)
    {
      ghost var es := frames.Entries();
      NextRegion(regions, i);
      if regions[i].F == 1 && regions[i].L > 0 {
        var block := new MemoryBlock(regions[i].A, regions[i].L, 0);
        LoadOne(frames, block);
      }
      i := i + 1;
    }
    assert regions[..i] == regions;
  }

  method LoadOne(frames: MemoryMap, block: MemoryBlock)
    requires Healthy(frames) && block !in frames.Repr && block.L == null && block.R == null
    requires block.S > 0 && block.V == 0 && block.A + block.S < QWORDS
    requires forall x :: block.A <= x < block.A + block.S ==> !Has(frames.Entries(), x)
    modifies frames, frames.Repr, block
    ensures Healthy(frames) && frames.Repr <= old(frames.Repr) + {block}
    ensures forall x: int :: Has(frames.Entries(), x) <==>
      Has(old(frames.Entries()), x) || old(block.A) <= x < old(block.A + block.S)
  {
    hide *;
    Add(frames, block);
    WithMeans(old(frames.Entries()), frames.Entries(), old(block.A), old(block.A + block.S));
  }

  lemma WithMeans(was: seq<Entry>, now: seq<Entry>, lo: int, hi: int)
    requires With(was, now, lo, hi)
    ensures forall x: int :: Has(now, x) <==> Has(was, x) || lo <= x < hi
  {
  }

  lemma NextRegion(rs: seq<Region>, i: nat)
    requires i < |rs| && Loadable(rs)
    ensures rs[i].F == 1 ==> rs[i].A + rs[i].L < QWORDS
    ensures forall x: int :: HasClass(rs[..i + 1], x, 1) <==>
      HasClass(rs[..i], x, 1) || (Inside(rs[i], x) && rs[i].F == 1)
    ensures forall x: int :: rs[i].F == 1 && Inside(rs[i], x) ==> !HasClass(rs[..i], x, 1)
  {
    forall x: int ensures HasClass(rs[..i + 1], x, 1) <==>
      HasClass(rs[..i], x, 1) || (Inside(rs[i], x) && rs[i].F == 1) {
      ClassSplit(rs[..i], rs[i], rs[..i + 1], x, 1);
    }
    forall x: int | rs[i].F == 1 && Inside(rs[i], x) ensures !HasClass(rs[..i], x, 1) {
      forall r | r in rs[..i] && r.F == 1 ensures !Inside(r, x) {
        var j :| 0 <= j < i && rs[..i][j] == r;
        assert rs[j].F == 1;
      }
    }
  }

  lemma SortedWell(s: seq<Descriptor>, t: seq<Descriptor>)
    requires multiset(s) == multiset(t) && Disjoint(s) && Ascending(t) && exists d :: d in s && d.A == 0
    ensures Ordered(t) && t != [] && t[0].A == 0
    ensures forall x: int, f: nat :: DescribedAs(t, x, f) <==> DescribedAs(s, x, f)
  {
    SortedDisjoint(s, t);
    AscendingOrdered(t);
    SameDescribed(s, t) by { SameTypes(s, t); }
    var d :| d in s && d.A == 0;
    assert d in multiset(s) && d in multiset(t) && d in t;
  }

  lemma SameDescribed(s: seq<Descriptor>, t: seq<Descriptor>)
    requires forall x: int, y: nat :: HasType(s, x, y) <==> HasType(t, x, y)
    ensures forall x: int, f: nat :: DescribedAs(t, x, f) <==> DescribedAs(s, x, f)
  {
    hide HasType;
  }

  /** Sort, compact and translate keep the class of every byte. */
  method Prepare(map0: array<Descriptor>, count: nat, regions: array<Region>) returns (n: nat)
    requires 0 < count <= map0.Length && regions.Length > count && Disjoint(map0[..count])
    requires exists d :: d in map0[..count] && d.A == 0
    modifies map0, regions
    ensures 0 < n <= regions.Length && exists end: nat :: InOrder(regions[..n], end)
    ensures forall x: int, f: nat :: HasClass(regions[..n], x, f) <==> DescribedAs(old(map0[..count]), x, f)
    ensures forall i :: 0 <= i < n ==> regions[i].F < 0x100 && regions[i].X == 0
  {
    hide HasType, DescribedAs, HasClass, Ordered, Disjoint, InOrder, Ascending, Mergeable, Regions;
    ghost var was := map0[..count];
    SortMemoryMap(map0, count);
    ghost var sorted := map0[..count];
    SortedWell(was, sorted);
    assert map0[0] == sorted[0];
    var left := CompactMemoryMap(map0, count);
    ghost var ds := map0[..left];
    assert ds[0] == map0[0];
    SameDescribed(sorted, ds);
    n := Translate(map0, left, regions);
    RegionsKeepClasses(ds);
    RegionsSmall(ds);
    assert forall i :: 0 <= i < n ==> regions[..n][i] == regions[i];
    ghost var end := End(ds[|ds| - 1]);
    assert InOrder(regions[..n], end);
  }
}
