/** Requests that virtual.c:109-273 does not treat as it should: what they do, and exactly which they are. */
module Requests {
  import opened Intervals
  import opened AvlTree
  import opened MemoryMaps
  import opened Physical
  import opened PageWalk
  import opened Paging
  import opened Regions
  import opened Frames
  import opened Release
  import opened Uncommit
  import opened Space
  import opened VirtualMemories

  // ---------------------------------------------------------------- free and reserved space

  /** Free and reserved space stay a partition of the window, whatever is committed and wherever. */
  lemma StepsPartition(s0: State, s1: State, s2: State, s3: State, s4: State, root: nat, lo: nat, hi: nat, option: nat,
      protect: nat)
    requires Partition(s0.f, s0.r) && Range(lo, hi) && Steps(s0, s1, s2, s3, s4, root, lo, hi, option, protect)
    requires Asks(option, MEM_RESERVE) ==> AllIn(s0.f, lo, hi)
    requires Asks(option, MEM_FREE) ==> AllIn(s3.r, lo, hi)
    ensures Partition(s1.f, s1.r) && s2.f == s1.f && s2.r == s1.r && s3.f == s2.f && s3.r == s2.r
    ensures Partition(s4.f, s4.r)
  {
    hide Asks;
    if Asks(option, MEM_RESERVE) {
      WithoutPageWise(s0.f, s1.f, lo, hi);
      assert Has(s0.f, lo) && Has(s0.f, hi - 1);
    }
    if Asks(option, MEM_FREE) {
      WithoutPageWise(s3.f, s4.f, lo, hi);
      assert Has(s3.r, lo) && Has(s3.r, hi - 1);
    }
  }

  // ---------------------------------------------------------------- committed and reserved space

  /** A request keeps committed space within reserved space, unless it does no more than commit a range that is not
      reserved. */
  lemma AllocatedBooksIff(s: State, t: State, root: nat, lo: nat, hi: nat, option: nat, protect: nat)
    requires Allocated(s, t, root, lo, hi, option, protect) && CommittedReserved(s)
    ensures CommittedReserved(t) <==>
      (Asks(option, MEM_COMMIT) && !Asks(option, MEM_UNCOMMIT) && !Asks(option, MEM_FREE) && !Asks(option, MEM_RESERVE)
       ==> AllIn(s.r, lo, hi))
  {
    forall x ensures (Has(s.c, x) <==> At(s.c, x).Some?) && (Has(t.c, x) <==> At(t.c, x).Some?) {
      AtHas(s.c, x);
      AtHas(t.c, x);
    }
    hide At, Has, Asks, Released, Dropped;
    if Asks(option, MEM_COMMIT) && !Asks(option, MEM_UNCOMMIT) && !Asks(option, MEM_FREE)
      && !Asks(option, MEM_RESERVE) {
      if CommittedReserved(t) {
        forall x | lo <= x < hi ensures Has(s.r, x) {
          assert At(t.c, x) == Some(protect) && Has(t.c, x);
        }
      }
    }
  }

  // ---------------------------------------------------------------- requests that are refused

  /** Nothing that a caller could notice has changed. */
  ghost predicate Unchanged(s: State, t: State, root: nat) {
    && (forall x :: (Has(t.f, x) <==> Has(s.f, x)) && (Has(t.r, x) <==> Has(s.r, x)) && At(t.c, x) == At(s.c, x))
    && SameMapping(s.m, t.m, root) && (forall x :: Has(t.frames, x) <==> Has(s.frames, x))
  }

  /** Committing and uncommitting change nothing: the protections are right already, and no page is mapped that they
      release. */
  ghost predicate NoEffect(s: State, root: nat, lo: nat, hi: nat, option: nat, protect: nat) {
    && (forall x :: lo <= x < hi ==> At(s.c, x) == if Asks(option, MEM_UNCOMMIT) then None else Some(protect))
    && (forall v: nat :: Base(v) in Unmapped(s, lo, hi, option) ==> Look(s.m, root, v) == None)
  }

  ghost function Unmapped(s: State, lo: nat, hi: nat, option: nat): iset<nat> {
    if !Asks(option, MEM_UNCOMMIT) || !Asks(option, MEM_COMMIT) then Committed(s.c, lo, hi) else PagesFrom(lo, hi)
  }

  /** A refused request has changed nothing, just when it makes the right test in time, or has nothing to change. */
  lemma RefusedUnchangedIff(s: State, t: State, root: nat, lo: nat, hi: nat, option: nat, protect: nat)
    requires Refuses(s, t, root, lo, hi, option, protect)
    ensures Unchanged(s, t, root) <==> !HalfDone(s, lo, option) || NoEffect(s, root, lo, hi, option, protect)
  {
    if HalfDone(s, lo, option) {
      WithoutFree(option);
      HalfUnchanged(s, t, root, lo, hi, option, option - MEM_FREE, protect);
    }
  }

  lemma HalfUnchanged(s: State, t: State, root: nat, lo: nat, hi: nat, option: nat, o: nat, protect: nat)
    requires Allocated(s, t, root, lo, hi, o, protect) && !Asks(o, MEM_FREE) && !Asks(o, MEM_RESERVE)
    requires Asks(option, MEM_COMMIT) || Asks(option, MEM_UNCOMMIT)
    requires (Asks(o, MEM_COMMIT) <==> Asks(option, MEM_COMMIT))
      && (Asks(o, MEM_UNCOMMIT) <==> Asks(option, MEM_UNCOMMIT))
    ensures Unchanged(s, t, root) <==> NoEffect(s, root, lo, hi, option, protect)
  {
    hide At, Has, Asks, Look, Base, Committed, PagesFrom, FrameIn;
    var D := Unmapped(s, lo, hi, option);
    assert Dropped(s.c, lo, hi, o) == D;
    if SameMapping(s.m, t.m, root) {
      forall v: nat | Base(v) in D ensures Look(s.m, root, v) == None {}
    }
    if forall v: nat :: Base(v) in D ==> Look(s.m, root, v) == None {
      NothingHeld(s.m, root, D);
    }
    if Unchanged(s, t, root) {
      forall x | lo <= x < hi ensures At(s.c, x) == if Asks(option, MEM_UNCOMMIT) then None else Some(protect) {
        assert At(t.c, x) == At(s.c, x);
      }
    }
  }

  lemma NothingHeld(m: Tables, root: nat, D: iset<nat>)
    requires forall v: nat :: Base(v) in D ==> Look(m, root, v) == None
    ensures forall x :: !FrameIn(m, root, D, x)
  {
    hide Look, Base;
    forall v: nat | v in D && InWindow(v) ensures Look(m, root, v) == None {
      WindowBase(v);
    }
  }

  /** For UNCOMMIT without COMMIT that is: just when nothing is committed in the range. */
  lemma UncommitsNothing(s: State, root: nat, lo: nat, hi: nat, option: nat, protect: nat)
    requires Asks(option, MEM_UNCOMMIT) && !Asks(option, MEM_COMMIT)
    ensures NoEffect(s, root, lo, hi, option, protect) <==> forall x :: lo <= x < hi ==> !Has(s.c, x)
  {
    forall x ensures Has(s.c, x) <==> At(s.c, x).Some? {
      AtHas(s.c, x);
    }
    hide At, Has, Look, Base;
  }

  /** A page, a gap of two, and a page that is committed are reserved at the start of dynamic space. */
  ghost function TwoBlocks(): State {
    var w := WINDOW_LO;
    State([Entry(w + 0x1000, 0x2000, 0), Entry(w + 0x4000, SPACE_HI - w - 0x4000, 0)],
          [Entry(w, 0x1000, 0), Entry(w + 0x3000, 0x1000, 0)], [Entry(w + 0x3000, 0x1000, 3)],
          map[0x1000 := Zeros()], [Entry(0x10_0000, 0x10_0000, 0)])
  }

  lemma HasTwo(a: Entry, b: Entry, x: int)
    ensures Has([a, b], x) <==> a.Covers(x) || b.Covers(x)
  {
    assert [a, b][0] == a && [a, b][1] == b;
  }

  lemma TwoBlocksSound()
    ensures Sound(TwoBlocks(), 0x1000) && CommittedReserved(TwoBlocks())
    ensures Has(TwoBlocks().c, WINDOW_LO + 0x3000)
  {
    var s, w := TwoBlocks(), WINDOW_LO;
    forall x
      ensures Has(s.f, x) <==> w + 0x1000 <= x < w + 0x3000 || w + 0x4000 <= x < SPACE_HI
      ensures Has(s.r, x) <==> w <= x < w + 0x1000 || w + 0x3000 <= x < w + 0x4000
      ensures Has(s.c, x) <==> w + 0x3000 <= x < w + 0x4000
      ensures Has(s.frames, x) <==> 0x10_0000 <= x < 0x20_0000
    {
      HasTwo(s.f[0], s.f[1], x);
      HasTwo(s.r[0], s.r[1], x);
      HasOne(s.c[0], x);
      HasOne(s.frames[0], x);
    }
    forall x: int, y: int | x / 0x1000 == y / 0x1000 && Has(s.f, x) ensures Has(s.f, y) {
      SamePageSide(x, y, w + 0x1000);
      SamePageSide(x, y, w + 0x3000);
      SamePageSide(x, y, w + 0x4000);
      SamePageSide(x, y, SPACE_HI);
    }
    hide Look;
    forall v: nat ensures Look(s.m, 0x1000, v) == None {
      NothingMappedYet(v);
    }
  }

  /** UNCOMMIT and FREE of the second half of the gap and the page behind it: the answer is 0, and the page has lost its
      commitment. */
  lemma RefusedHalfDone()
    ensures var s, lo, hi, option := TwoBlocks(), WINDOW_LO + 0x2000, WINDOW_LO + 0x4000, MEM_UNCOMMIT + MEM_FREE;
            && Sound(s, 0x1000) && CommittedReserved(s) && Refused(s, lo, hi - lo, option)
            && forall t, protect :: Refuses(s, t, 0x1000, lo, hi, option, protect) ==> !Unchanged(s, t, 0x1000)
  {
    var s, lo, hi, option := TwoBlocks(), WINDOW_LO + 0x2000, WINDOW_LO + 0x4000, MEM_UNCOMMIT + MEM_FREE;
    TwoBlocksSound();
    GapIsBeyond();
    assert Asks(option, MEM_UNCOMMIT) && Asks(option, MEM_FREE) && !Asks(option, MEM_COMMIT)
      && !Asks(option, MEM_RESERVE);
    hide Sound, Has, CommittedReserved, TwoBlocks, Asks, NotBeyond, Unchanged, Refuses, NoEffect;
    forall t, protect | Refuses(s, t, 0x1000, lo, hi, option, protect) ensures !Unchanged(s, t, 0x1000) {
      RefusedUnchangedIff(s, t, 0x1000, lo, hi, option, protect);
      UncommitsNothing(s, 0x1000, lo, hi, option, protect);
    }
  }

  lemma GapIsBeyond()
    ensures !NotBeyond(TwoBlocks().r, WINDOW_LO + 0x2000)
    ensures !AllIn(TwoBlocks().r, WINDOW_LO + 0x2000, WINDOW_LO + 0x4000)
  {
    var r := TwoBlocks().r;
    assert r[1..] == [r[1]] && [r[1]][1..] == [];
    assert Rank(r[1..], WINDOW_LO + 0x2001) == 0;
    HasTwo(r[0], r[1], WINDOW_LO + 0x2000);
  }

  // ---------------------------------------------------------------- ranges that wrap

  /** The test of RESERVE (virtual.c:157-167) on QWORDs, on the free block from A up to end that was found for the
      address: it is right unless the range wraps and its end comes to lie in that block again. */
  lemma ReserveTest(A: nat, end: nat, address: nat, size: nat)
    requires A <= address < QWORDS && size < QWORDS && A <= end < QWORDS
    ensures var e := Add64(address, size);
            (!(A > e) && !(end < e) <==> address + size <= end) <==> address + size < QWORDS || !(A <= e <= end)
  {
  }

  /** The test of FREE (virtual.c:246): it is right unless the range wraps to an end at or below that of the block. */
  lemma FreeTest(end: nat, address: nat, size: nat)
    requires address < QWORDS && size < QWORDS && end < QWORDS
    ensures (!(end < Add64(address, size)) <==> address + size <= end) <==>
            address + size < QWORDS || Add64(address, size) > end
  {
  }

  /** With the whole window free, reserving all but one page of the address space from within it passes the test. */
  lemma ReserveTestFails()
    ensures var A, end, address, size := WINDOW_LO, SPACE_HI, WINDOW_LO + 0x2000, QWORDS - 0x1000;
            && address == RoundUp(address) && size == RoundUp(size)
            && !(A > Add64(address, size)) && !(end < Add64(address, size)) && address + size > end
  {
    RoundsUp(WINDOW_LO + 0x2000);
    RoundsUp(QWORDS - 0x1000);
  }
}
