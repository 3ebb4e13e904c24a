/** KERNEL/SOURCE/memory/virtual.c:87-106: unmapping a stretch of pages and freeing their frames run by run. */
module Release {
  import opened Intervals
  import opened AvlTree
  import opened MemoryMaps
  import opened Physical
  import opened PageWalk
  import opened Paging
  import opened Frames

  /** `~0ULL`. */
  const NOWHERE: nat := QWORDS - 1

  /** x is a byte of the frame of a window page in D. */
  ghost predicate FrameIn(m: Tables, root: nat, D: iset<nat>, x: int) {
    exists v: nat :: v in D && InWindow(v) && Holding(m, root, v, x)
  }

  /** The pages of D are no longer mapped, all else is; and just the frames of those pages were freed. */
  ghost predicate Released(m: Tables, free: seq<Entry>, m': Tables, free': seq<Entry>, root: nat, D: iset<nat>) {
    && m'.Keys == m.Keys
    && (forall v: nat :: Look(m', root, v) == if Base(v) in D then None else Look(m, root, v))
    && (forall x :: Has(free', x) <==> Has(free, x) || FrameIn(m, root, D, x))
  }

  ghost function PagesFrom(lo: nat, hi: nat): iset<nat> {
    iset v: nat | lo <= v < hi && v % 0x1000 == 0
  }

  // ---------------------------------------------------------------- what releasing is worth

  /** A frame belongs to one window page only. */
  lemma OneHolder(m: Tables, root: nat, free: seq<Entry>, v: nat, w: nat, x: int)
    requires Owned(m, root, free) && InWindow(v) && InWindow(w) && Holding(m, root, v, x) && Holding(m, root, w, x)
    ensures v == w
  {
    var p, q := Look(m, root, v).value, Look(m, root, w).value;
    assert GoodFrame(m, free, p) && GoodFrame(m, free, q);
    hide Look;
    SameFrame(x, p.at);
    SameFrame(x, q.at);
  }

  /** Releasing pages keeps every frame with one owner, and neither loses nor makes up a byte. */
  lemma ReleasedOwned(m: Tables, free: seq<Entry>, m': Tables, free': seq<Entry>, root: nat, D: iset<nat>)
    requires Owned(m, root, free) && Released(m, free, m', free', root, D)
    ensures Owned(m', root, free') && Conserved(m, free, m', free', root)
  {
    forall v: nat | InWindow(v) ensures Look(m', root, v) == if v in D then None else Look(m, root, v) {
      WindowBase(v);
    }
    forall v: nat | InWindow(v) && Look(m', root, v).Some? ensures GoodFrame(m', free', Look(m', root, v).value) {
      StaysGood(m, free, m', free', root, D, v);
    }
    forall x ensures Has(free', x) ==> x < REACH {
      if FrameIn(m, root, D, x) {
        var v: nat :| v in D && InWindow(v) && Holding(m, root, v, x);
        assert GoodFrame(m, free, Look(m, root, v).value);
      }
    }
    forall x ensures Has(free', x) || Used(m', root, x) <==> Has(free, x) || Used(m, root, x) {
      SameUse(m, free, m', free', root, D, x);
    }
  }

  lemma StaysGood(m: Tables, free: seq<Entry>, m': Tables, free': seq<Entry>, root: nat, D: iset<nat>, v: nat)
    requires Owned(m, root, free) && Released(m, free, m', free', root, D)
    requires InWindow(v) && v !in D && Look(m, root, v).Some?
    ensures GoodFrame(m', free', Look(m, root, v).value)
  {
    var p := Look(m, root, v).value;
    assert GoodFrame(m, free, p);
    forall x | p.at <= x < p.at + 0x1000 ensures !Has(free', x) {
      if FrameIn(m, root, D, x) {
        var w: nat :| w in D && InWindow(w) && Holding(m, root, w, x);
        OneHolder(m, root, free, v, w, x);
      }
    }
  }

  lemma SameUse(m: Tables, free: seq<Entry>, m': Tables, free': seq<Entry>, root: nat, D: iset<nat>, x: int)
    requires Owned(m, root, free) && Released(m, free, m', free', root, D)
    requires forall v: nat :: InWindow(v) ==> Look(m', root, v) == if v in D then None else Look(m, root, v)
    ensures Has(free', x) || Used(m', root, x) <==> Has(free, x) || Used(m, root, x)
  {
    hide Look, InWindow, Has, Owned;
    if Used(m, root, x) {
      var v: nat :| InWindow(v) && Holding(m, root, v, x);
      if v in D {
        assert FrameIn(m, root, D, x);
      } else {
        assert Holding(m', root, v, x);
      }
    }
    if Used(m', root, x) {
      var v: nat :| InWindow(v) && Holding(m', root, v, x);
      assert Holding(m, root, v, x);
    }
    if FrameIn(m, root, D, x) {
      var v: nat :| v in D && InWindow(v) && Holding(m, root, v, x);
    }
  }

  /** Releasing one set of pages after another. */
  lemma ReleasedTwice(m0: Tables, f0: seq<Entry>, m1: Tables, f1: seq<Entry>, m2: Tables, f2: seq<Entry>, root: nat,
      D: iset<nat>, E: iset<nat>)
    requires Released(m0, f0, m1, f1, root, D) && Released(m1, f1, m2, f2, root, E)
    ensures Released(m0, f0, m2, f2, root, D + E)
  {
    forall x ensures Has(f2, x) <==> Has(f0, x) || FrameIn(m0, root, D + E, x) {
      if FrameIn(m1, root, E, x) {
        var v: nat :| v in E && InWindow(v) && Holding(m1, root, v, x);
        WindowBase(v);
        assert v in D + E && Holding(m0, root, v, x);
      }
      if FrameIn(m0, root, D, x) {
        var v: nat :| v in D && InWindow(v) && Holding(m0, root, v, x);
        assert v in D + E;
      }
      if FrameIn(m0, root, D + E, x) {
        var v: nat :| v in D + E && InWindow(v) && Holding(m0, root, v, x);
        WindowBase(v);
        if v in D {
          assert FrameIn(m0, root, D, x);
        } else {
          assert Holding(m1, root, v, x) && FrameIn(m1, root, E, x);
        }
      }
    }
  }

  lemma NothingReleased(m: Tables, free: seq<Entry>, root: nat)
    ensures Released(m, free, m, free, root, iset{})
  {
  }

  // ---------------------------------------------------------------- the loop

  /** Half way: the pages of D are unmapped, their frames freed but for the run of s bytes from a. */
  ghost predicate Releasing(m: Tables, free: seq<Entry>, m': Tables, free': seq<Entry>, root: nat, D: iset<nat>, a: nat,
      s: nat) {
    && m'.Keys == m.Keys
    && (forall v: nat :: Look(m', root, v) == if Base(v) in D then None else Look(m, root, v))
    && (forall x :: Has(free', x) || a <= x < a + s <==> Has(free, x) || FrameIn(m, root, D, x))
    && (forall x :: a <= x < a + s ==> !Has(free', x))
  }

  /** A run is made of whole pages below the reach of a page table entry; without one, a is ~0. */
  ghost predicate Run(a: nat, s: nat) {
    if s == 0 then a == NOWHERE else a % 0x1000 == 0 && s % 0x1000 == 0 && a + s <= REACH
  }

  /** No byte of the run is a byte of a table. */
  lemma RunApart(m: Tables, free: seq<Entry>, m': Tables, free': seq<Entry>, root: nat, D: iset<nat>, a: nat, s: nat,
      x: int)
    requires Owned(m, root, free) && Separate(m, free) && Releasing(m, free, m', free', root, D, a, s)
    requires Has(free', x) || a <= x < a + s
    ensures !InTable(m', x)
  {
    if FrameIn(m, root, D, x) {
      var v: nat :| v in D && InWindow(v) && Holding(m, root, v, x);
      var p := Look(m, root, v).value;
      assert GoodFrame(m, free, p);
      SameFrame(x, p.at);
    }
  }

  /** The frame of a page not in D is neither free nor in the run. */
  lemma FrameApart(m: Tables, free: seq<Entry>, m': Tables, free': seq<Entry>, root: nat, D: iset<nat>, a: nat, s: nat,
      v: nat, x: int)
    requires Owned(m, root, free) && Releasing(m, free, m', free', root, D, a, s)
    requires InWindow(v) && v !in D && Holding(m, root, v, x)
    ensures !Has(free', x) && !(a <= x < a + s)
  {
    assert GoodFrame(m, free, Look(m, root, v).value);
    if FrameIn(m, root, D, x) {
      var w: nat :| w in D && InWindow(w) && Holding(m, root, w, x);
      OneHolder(m, root, free, v, w, x);
    }
  }

  lemma FrameMore(m: Tables, root: nat, D: iset<nat>, v: nat, x: int)
    requires InWindow(v)
    ensures FrameIn(m, root, D + iset{v}, x) <==> FrameIn(m, root, D, x) || Holding(m, root, v, x)
  {
    if FrameIn(m, root, D, x) {
      var w: nat :| w in D && InWindow(w) && Holding(m, root, w, x);
      assert w in D + iset{v};
    }
    if Holding(m, root, v, x) { assert v in D + iset{v}; }
  }

  /** What the loop sees of a page that it has not reached before. */
  lemma PageSeen(m: Tables, free: seq<Entry>, m1: Tables, free1: seq<Entry>, root: nat, D: iset<nat>, a: nat, s: nat,
      v: nat)
    requires Owned(m, root, free) && Releasing(m, free, m1, free1, root, D, a, s) && InWindow(v) && v !in D
    ensures Look(m1, root, v) == Look(m, root, v)
    ensures physical_mapping(m1, root, v) == match Look(m, root, v) { case None => None case Some(p) => Some(p.at) }
    ensures Look(m, root, v).Some? ==>
              var p := Look(m, root, v).value;
                p.size == 0 && p.at % 0x1000 == 0 && p.at + 0x1000 <= REACH
  {
    WalkByTables(m1, root, v);
    WindowBase(v);
    assert Look(m, root, v).Some? ==> GoodFrame(m, free, Look(m, root, v).value);
  }

  /** One page more: its frame extends the run, or the run is freed and a new one begins. */
  lemma PageMore(m: Tables, free: seq<Entry>, m1: Tables, free1: seq<Entry>, m2: Tables, free2: seq<Entry>, root: nat,
      D: iset<nat>, a: nat, s: nat, v: nat, p: Page)
    requires Owned(m, root, free) && Releasing(m, free, m1, free1, root, D, a, s)
    requires InWindow(v) && v !in D && Look(m, root, v) == Some(p)
    requires ClearsPage(m1, m2, root, v, 0) && m2.Keys == m1.Keys
    requires if a + s == p.at then free2 == free1 else With(free1, free2, a, a + s)
    ensures Releasing(m, free, m2, free2, root, D + iset{v}, if a + s == p.at then a else p.at,
      if a + s == p.at then s + 0x1000 else 0x1000)
  {
    forall w: nat ensures Look(m2, root, w) == if Base(w) in D + iset{v} then None else Look(m, root, w) {
      WindowBase(v);
      SameBase(w, v);
    }
    forall x ensures FrameIn(m, root, D + iset{v}, x) <==> FrameIn(m, root, D, x) || p.at <= x < p.at + 0x1000 {
      FrameMore(m, root, D, v, x);
    }
    forall x | p.at <= x < p.at + 0x1000 ensures !Has(free1, x) && !(a <= x < a + s) {
      FrameApart(m, free, m1, free1, root, D, a, s, v, x);
    }
  }

  /** A page that is not mapped needs nothing. */
  lemma PageNone(m: Tables, free: seq<Entry>, m1: Tables, free1: seq<Entry>, root: nat, D: iset<nat>, a: nat, s: nat,
      v: nat)
    requires Releasing(m, free, m1, free1, root, D, a, s) && InWindow(v) && Look(m, root, v) == None
    ensures Releasing(m, free, m1, free1, root, D + iset{v}, a, s)
  {
    forall w: nat ensures Look(m1, root, w) == if Base(w) in D + iset{v} then None else Look(m, root, w) {
      if Base(w) == v {
        WindowBase(v);
        SameBase(w, v);
        OnePage(m, root, w, v);
      }
    }
    forall x ensures FrameIn(m, root, D + iset{v}, x) <==> FrameIn(m, root, D, x) {
      FrameMore(m, root, D, v, x);
    }
  }

  lemma PageRun(a: nat, s: nat)
    requires Run(a, s)
    ensures forall p: nat :: p % 0x1000 == 0 && p + 0x1000 <= REACH ==>
              (a + s == p ==> Run(a, s + 0x1000)) && Run(p, 0x1000)
  {
  }

  lemma NothingYet(m: Tables, free: seq<Entry>, root: nat, lo: nat)
    ensures Releasing(m, free, m, free, root, PagesFrom(lo, lo), NOWHERE, 0) && Run(NOWHERE, 0)
  {
  }

  lemma AllFreed(m: Tables, free: seq<Entry>, m1: Tables, free1: seq<Entry>, free2: seq<Entry>, root: nat, D: iset<nat>,
      a: nat, s: nat)
    requires Releasing(m, free, m1, free1, root, D, a, s) && With(free1, free2, a, a + s)
    ensures Released(m, free, m1, free2, root, D)
  {
  }

  /** How far the loop has come. */
  ghost predicate Left(address: nat, size: nat, A0: nat, S0: nat) {
    && address <= A0 && A0 + S0 == address + size && (size > 0 ==> WINDOW_LO <= address && address + size <= WINDOW_HI)
    && A0 % 0x1000 == 0 && S0 % 0x1000 == 0
  }

  lemma NextPage(address: nat, size: nat, v: nat, s: nat)
    requires Left(address, size, v, s) && s > 0
    ensures InWindow(v) && s >= 0x1000 && Left(address, size, v + 0x1000, s - 0x1000)
    ensures PagesFrom(address, v + 0x1000) == PagesFrom(address, v) + iset{v} && v !in PagesFrom(address, v)
  {
    forall w: nat | v < w < v + 0x1000 ensures w % 0x1000 != 0 {
      var q := v / 0x1000;
      assert w == 0x1000 * q + (w - v);
    }
  }

  lemma Begin(paging: PageTables, address: nat, size: nat)
    requires paging.Valid()
    requires address % 0x1000 == 0 && size % 0x1000 == 0
      && (size > 0 ==> WINDOW_LO <= address && address + size <= WINDOW_HI)
    ensures Separate(paging.tables, paging.frames.Entries()) && Left(address, size, address, size)
  {
  }

  lemma Done(address: nat, size: nat, v: nat)
    requires Left(address, size, v, 0)
    ensures v == address + size
  {
  }

  /** `FreePhysicalMemory(A1, 0, S1 >> 12)`. */
  method FreeRun(paging: PageTables, A1: nat, S1: nat, ghost m: Tables, ghost free: seq<Entry>, ghost D: iset<nat>)
    requires paging.Valid() && Run(A1, S1) && Owned(m, paging.cr3, free) && Separate(m, free)
    requires Releasing(m, free, paging.tables, paging.frames.Entries(), paging.cr3, D, A1, S1)
    modifies paging.frames, paging.frames.Repr
    ensures paging.Valid() && fresh(paging.frames.Repr - old(paging.frames.Repr))
    ensures With(old(paging.frames.Entries()), paging.frames.Entries(), A1, A1 + S1)
  {
    ghost var free1 := paging.frames.Entries();
    forall x | Has(free1, x) || A1 <= x < A1 + S1 ensures !InTable(paging.tables, x) {
      RunApart(m, free, paging.tables, free1, paging.cr3, D, A1, S1, x);
    }
    var code := FreePhysicalMemory(paging.frames, A1, 0, S1 / 0x1000);
  }

  /** The inner loop of `UncommitVirtualMemory`, and the call behind it. */
  method ReleasePages(paging: PageTables, address: nat, size: nat)
    requires paging.Valid() && Owned(paging.tables, paging.cr3, paging.frames.Entries())
    requires address % 0x1000 == 0 && size % 0x1000 == 0
      && (size > 0 ==> WINDOW_LO <= address && address + size <= WINDOW_HI)
    modifies paging`tables, paging.frames, paging.frames.Repr
    ensures paging.Valid() && fresh(paging.frames.Repr - old(paging.frames.Repr))
    ensures Released(old(paging.tables), old(paging.frames.Entries()), paging.tables, paging.frames.Entries(),
                     paging.cr3, PagesFrom(address, address + size))
  {
    hide *;
    ghost var m, free, D := paging.tables, paging.frames.Entries(), PagesFrom(address, address + size);
    Begin(paging, address, size);
    var A1, S1 := UnmapPages(paging, address, size, m, free);
    ghost var free1 := paging.frames.Entries();
    FreeRun(paging, A1, S1, m, free, D);
    AllFreed(m, free, paging.tables, free1, paging.frames.Entries(), paging.cr3, D, A1, S1);
  }

  /** The loop: what it leaves is the last run. */
  method UnmapPages(paging: PageTables, address: nat, size: nat, ghost m: Tables, ghost free: seq<Entry>)
      returns (A1: nat, S1: nat)
    requires paging.Valid() && Owned(m, paging.cr3, free) && Separate(m, free) && Left(address, size, address, size)
    requires m == paging.tables && free == paging.frames.Entries()
    modifies paging`tables, paging.frames, paging.frames.Repr
    ensures paging.Valid() && fresh(paging.frames.Repr - old(paging.frames.Repr)) && Run(A1, S1)
    ensures Releasing(m, free, paging.tables, paging.frames.Entries(), paging.cr3, PagesFrom(address, address + size),
      A1, S1)
  {
    hide *;
    var A0, S0 := address, size;
    A1, S1 := NOWHERE, 0;
    NothingYet(m, free, paging.cr3, address);
    while S0 > 0
      invariant paging.Valid() && fresh(paging.frames.Repr - old(paging.frames.Repr))
      invariant Left(address, size, A0, S0) && Run(A1, S1)
      invariant Releasing(m, free, paging.tables, paging.frames.Entries(), paging.cr3, PagesFrom(address, A0), A1, S1)
    {
      A1, S1 := NextRound(paging, A0, A1, S1, m, free, address, size, S0);
      A0 := A0 + 0x1000;
      S0 := S0 - 0x1000;
    }
    Done(address, size, A0);
  }

  method NextRound(paging: PageTables, A0: nat, A1: nat, S1: nat, ghost m: Tables, ghost free: seq<Entry>,
      ghost address: nat, ghost size: nat, ghost S0: nat) returns (a: nat, s: nat)
    requires paging.Valid() && Run(A1, S1) && Owned(m, paging.cr3, free) && Separate(m, free)
      && Left(address, size, A0, S0) && S0 > 0
    requires Releasing(m, free, paging.tables, paging.frames.Entries(), paging.cr3, PagesFrom(address, A0), A1, S1)
    modifies paging`tables, paging.frames, paging.frames.Repr
    ensures paging.Valid() && fresh(paging.frames.Repr - old(paging.frames.Repr))
    ensures Run(a, s) && S0 >= 0x1000 && Left(address, size, A0 + 0x1000, S0 - 0x1000)
    ensures Releasing(m, free, paging.tables, paging.frames.Entries(), paging.cr3, PagesFrom(address, A0 + 0x1000), a,
      s)
  {
    hide *;
    NextPage(address, size, A0, S0);
    a, s := ReleasePage(paging, A0, A1, S1, m, free, PagesFrom(address, A0));
  }

  /** One round of the loop. */
  method ReleasePage(paging: PageTables, A0: nat, A1: nat, S1: nat, ghost m: Tables, ghost free: seq<Entry>,
      ghost D: iset<nat>)
      returns (a: nat, s: nat)
    requires paging.Valid() && Run(A1, S1) && Owned(m, paging.cr3, free) && Separate(m, free)
    requires Releasing(m, free, paging.tables, paging.frames.Entries(), paging.cr3, D, A1, S1)
    requires InWindow(A0) && A0 !in D
    modifies paging`tables, paging.frames, paging.frames.Repr
    ensures paging.Valid() && fresh(paging.frames.Repr - old(paging.frames.Repr))
    ensures Run(a, s) && Releasing(m, free, paging.tables, paging.frames.Entries(), paging.cr3, D + iset{A0}, a, s)
  {
    hide *;
    ghost var m1, free1 := paging.tables, paging.frames.Entries();
    a, s := A1, S1;
    PageSeen(m, free, m1, free1, paging.cr3, D, A1, S1, A0);
    var PA := physical_mapping(paging.tables, paging.cr3, A0);
    if PA.Some? {
      ghost var page := Look(m, paging.cr3, A0).value;
      a, s := TakeFrame(paging, PA.value, A1, S1, m, free, D);
      ghost var free2 := paging.frames.Entries();
      Unmap(paging, A0);
      PageMore(m, free, m1, free1, paging.tables, free2, paging.cr3, D, A1, S1, A0, page);
    } else {
      PageNone(m, free, m1, free1, paging.cr3, D, A1, S1, A0);
    }
  }

  /** The frame of a page extends the run, or ends it. */
  method TakeFrame(paging: PageTables, PA: nat, A1: nat, S1: nat, ghost m: Tables, ghost free: seq<Entry>,
      ghost D: iset<nat>)
      returns (a: nat, s: nat)
    requires paging.Valid() && Run(A1, S1) && Owned(m, paging.cr3, free) && Separate(m, free)
    requires Releasing(m, free, paging.tables, paging.frames.Entries(), paging.cr3, D, A1, S1)
    requires PA % 0x1000 == 0 && PA + 0x1000 <= REACH
    modifies paging.frames, paging.frames.Repr
    ensures paging.Valid() && fresh(paging.frames.Repr - old(paging.frames.Repr)) && Run(a, s)
    ensures a == (if A1 + S1 == PA then A1 else PA) && s == if A1 + S1 == PA then S1 + 0x1000 else 0x1000
    ensures if A1 + S1 == PA then paging.frames.Entries() == old(paging.frames.Entries())
            else With(old(paging.frames.Entries()), paging.frames.Entries(), A1, A1 + S1)
  {
    hide *;
    a, s := A1, S1;
    PageRun(A1, S1);
    if A1 + S1 != PA {
      FreeRun(paging, A1, S1, m, free, D);
      a, s := PA, 0;
    }
    s := s + 0x1000;
  }

  /** `linear_unmapping` of a 4K page. */
  method Unmap(paging: PageTables, A0: nat)
    requires paging.Valid() && Look(paging.tables, paging.cr3, A0).Some?
      && Look(paging.tables, paging.cr3, A0).value.size == 0
    modifies paging`tables
    ensures paging.Valid() && paging.tables.Keys == old(paging.tables).Keys
    ensures ClearsPage(old(paging.tables), paging.tables, paging.cr3, A0, 0)
  {
    assert paging.Translate(A0) == Look(paging.tables, paging.cr3, A0);
    hide Look, ClearsPage, PageTables.Valid;
    var size := paging.linear_unmapping(A0);
  }
}
