/** The books of KERNEL/SOURCE/memory/virtual.c as values: what is free, reserved and committed, what is
    mapped, and what every step of an allocation does to them. */
module Space {
  import opened Intervals
  import opened Physical
  import opened PageWalk
  import opened Paging
  import opened Regions
  import opened Frames
  import opened Release
  import opened Uncommit

  /** The end of the dynamic window of 2^44 bytes. */
  const SPACE_HI: nat := 0xFFFF_A000_0000_0000

  /** The free, the reserved and the commit map, the page tables and the free frames. */
  datatype State = State(f: seq<Entry>, r: seq<Entry>, c: seq<Entry>, m: Tables, frames: seq<Entry>)

  /** Bytes of one page are in the map together. */
  ghost predicate PageWise(es: seq<Entry>) {
    forall x: int, y: int :: x / 0x1000 == y / 0x1000 && Has(es, x) ==> Has(es, y)
  }

  /** Free and reserved space partition the window. */
  ghost predicate Partition(f: seq<Entry>, r: seq<Entry>) {
    && (forall x :: Has(f, x) || Has(r, x) <==> WINDOW_LO <= x < SPACE_HI)
    && (forall x :: Has(f, x) ==> !Has(r, x))
    && PageWise(f)
  }

  /** They do, and what is committed are whole pages of the windows. */
  ghost predicate Books(f: seq<Entry>, r: seq<Entry>, c: seq<Entry>) {
    Partition(f, r) && CommitMap(c)
  }

  ghost predicate Sound(s: State, root: nat) {
    Books(s.f, s.r, s.c) && Owned(s.m, root, s.frames)
  }

  /** Only reserved space is committed. */
  ghost predicate CommittedReserved(s: State) {
    forall x :: Has(s.c, x) ==> Has(s.r, x)
  }

  // ---------------------------------------------------------------- the steps

  ghost predicate Reserves(s: State, t: State, lo: nat, hi: nat) {
    Without(s.f, t.f, lo, hi) && With(s.r, t.r, lo, hi) && t.c == s.c && t.m == s.m && t.frames == s.frames
  }

  ghost predicate Commits(s: State, t: State, root: nat, lo: nat, hi: nat, protect: nat)
    requires lo < hi
  {
    && t.f == s.f && t.r == s.r && t.c == Set(s.c, lo, hi, protect)
    && Released(s.m, s.frames, t.m, t.frames, root, Committed(s.c, lo, hi))
  }

  ghost predicate Uncommits(s: State, t: State, root: nat, lo: nat, hi: nat) {
    && t.f == s.f && t.r == s.r && t.c == Clear(s.c, lo, hi)
    && Released(s.m, s.frames, t.m, t.frames, root, Committed(s.c, lo, hi))
  }

  ghost predicate Frees(s: State, t: State, root: nat, lo: nat, hi: nat) {
    && With(s.f, t.f, lo, hi) && Without(s.r, t.r, lo, hi) && t.c == Clear(s.c, lo, hi)
    && Released(s.m, s.frames, t.m, t.frames, root, Committed(s.c, lo, hi))
  }

  // ---------------------------------------------------------------- every step keeps the books

  ghost predicate Range(lo: nat, hi: nat) {
    lo < hi && lo % 0x1000 == 0 && hi % 0x1000 == 0
  }

  lemma SamePageSide(x: int, y: int, lo: nat)
    requires lo % 0x1000 == 0 && x / 0x1000 == y / 0x1000
    ensures lo <= x <==> lo <= y
  {
    var q := lo / 0x1000;
    assert lo == 0x1000 * q;
  }

  lemma WithoutPageWise(f: seq<Entry>, f': seq<Entry>, lo: nat, hi: nat)
    requires PageWise(f) && Range(lo, hi) && (Without(f, f', lo, hi) || With(f, f', lo, hi))
    ensures PageWise(f')
  {
    forall x: int, y: int | x / 0x1000 == y / 0x1000 && Has(f', x) ensures Has(f', y) {
      SamePageSide(x, y, lo);
      SamePageSide(x, y, hi);
      assert Has(f, x) ==> Has(f, y);
    }
  }

  lemma ReservesSound(s: State, t: State, root: nat, lo: nat, hi: nat)
    requires Sound(s, root) && Range(lo, hi) && AllIn(s.f, lo, hi) && Reserves(s, t, lo, hi)
    ensures Sound(t, root) && AllIn(t.r, lo, hi)
  {
    WithoutPageWise(s.f, t.f, lo, hi);
    assert Has(s.f, lo) && Has(s.f, hi - 1);
  }

  lemma ReservedInWindow(s: State, root: nat, lo: nat, hi: nat)
    requires Sound(s, root) && lo < hi && AllIn(s.r, lo, hi)
    ensures WINDOW_LO <= lo && hi <= SPACE_HI
  {
    assert Has(s.r, lo) && Has(s.r, hi - 1);
  }

  /** A commit within the windows keeps the books, whether or not its range is reserved; one that reaches beyond them
      does not. */
  lemma CommitsSound(s: State, t: State, root: nat, lo: nat, hi: nat, protect: nat)
    requires Sound(s, root) && Range(lo, hi) && WINDOW_LO <= lo && Commits(s, t, root, lo, hi, protect)
    ensures Sound(t, root) <==> hi <= WINDOW_HI
    ensures Conserved(s.m, s.frames, t.m, t.frames, root)
  {
    ReleasedOwned(s.m, s.frames, t.m, t.frames, root, Committed(s.c, lo, hi));
    if hi <= WINDOW_HI {
      SetTiled(s.c, lo, hi, protect, WINDOW_LO, WINDOW_HI);
    } else {
      SetAt(s.c, lo, hi, protect, hi - 1);
      AtHas(t.c, hi - 1);
      assert Has(t.c, hi - 1) && !CommitMap(t.c);
    }
  }

  /** A commit keeps committed space within reserved space just when its range is reserved. */
  lemma CommitKeepsIff(s: State, t: State, root: nat, lo: nat, hi: nat, protect: nat)
    requires Sound(s, root) && Range(lo, hi) && Commits(s, t, root, lo, hi, protect) && CommittedReserved(s)
    ensures CommittedReserved(t) <==> AllIn(s.r, lo, hi)
  {
    forall x ensures Has(t.c, x) <==> Has(s.c, x) || lo <= x < hi {
      SetAt(s.c, lo, hi, protect, x);
      AtHas(s.c, x);
      AtHas(t.c, x);
    }
  }

  lemma {:induction false} ClearHas(c: seq<Entry>, lo: nat, hi: nat, x: int)
    requires lo < hi && Tiled(c)
    ensures Has(Clear(c, lo, hi), x) <==> Has(c, x) && !(lo <= x < hi)
  {
    ClearAt(c, lo, hi, x);
    AtHas(c, x);
    AtHas(Clear(c, lo, hi), x);
  }

  lemma {:induction false} ClearMap(c: seq<Entry>, lo: nat, hi: nat)
    requires CommitMap(c) && Range(lo, hi)
    ensures CommitMap(Clear(c, lo, hi))
  {
    ClearTiled(c, lo, hi, WINDOW_LO, WINDOW_HI);
  }

  lemma UncommitsSound(s: State, t: State, root: nat, lo: nat, hi: nat)
    requires Sound(s, root) && Range(lo, hi) && Uncommits(s, t, root, lo, hi)
    ensures Sound(t, root)
    ensures Conserved(s.m, s.frames, t.m, t.frames, root)
  {
    ClearMap(s.c, lo, hi);
    ReleasedOwned(s.m, s.frames, t.m, t.frames, root, Committed(s.c, lo, hi));
  }

  lemma FreesSound(s: State, t: State, root: nat, lo: nat, hi: nat)
    requires Sound(s, root) && Range(lo, hi) && AllIn(s.r, lo, hi) && Frees(s, t, root, lo, hi)
    ensures Sound(t, root)
    ensures Conserved(s.m, s.frames, t.m, t.frames, root)
  {
    ReservedInWindow(s, root, lo, hi);
    WithoutPageWise(s.f, t.f, lo, hi);
    ClearMap(s.c, lo, hi);
    ReleasedOwned(s.m, s.frames, t.m, t.frames, root, Committed(s.c, lo, hi));
  }

  // ---------------------------------------------------------------- the tests

  lemma InOrder(es: seq<Entry>, i: nat, j: nat)
    requires Normal(es) && i < |es| && j < |es|
    ensures i < j ==> Bound(es[i]) < es[j].A
  {
  }

  /** The test of virtual.c:151-170 and 241-249: a range lies within a normal map just when it ends within
      the last block that starts at or below it. */
  lemma FloorHolds(es: seq<Entry>, k: nat, lo: nat, hi: nat)
    requires Normal(es) && Splits(es, lo + 1, k) && lo < hi
    ensures AllIn(es, lo, hi) <==> k > 0 && hi <= Bound(es[k - 1])
  {
    if AllIn(es, lo, hi) {
      var j := OneBlock(es, lo, hi);
      InOrder(es, j, k - 1);
    }
    if k > 0 && hi <= Bound(es[k - 1]) {
      forall x | lo <= x < hi ensures Has(es, x) {
        assert es[k - 1].Covers(x);
      }
    }
  }

  /** The test of virtual.c:204 and 230 on QWORDs is the one of line 246 just when the range does not start
      beyond the end of the block that was found; beyond it the test is always passed. */
  lemma CommitTest(end: nat, address: nat, size: nat)
    requires end < QWORDS && size > 0 && address + size < QWORDS
    ensures (Sub64(end, address) >= size <==> address + size <= end) <==> address <= end
    ensures address > end ==> Sub64(end, address) >= size
  {
  }

  /** The range does not start beyond the end of the last block that starts at or below it. */
  ghost predicate NotBeyond(es: seq<Entry>, address: nat) {
    var k := Rank(es, address + 1);
    k > 0 ==> address <= Bound(es[k - 1])
  }

  /** With one page reserved, a commit beyond it passes the test: without the condition pages are committed that are
      not reserved. */
  lemma CommitTestFails()
    ensures var r := [Entry(WINDOW_LO, 0x1000, 0)];
            && Sorted(r) && Rank(r, WINDOW_LO + 0x2000 + 1) == 1 && !NotBeyond(r, WINDOW_LO + 0x2000)
            && Sub64(Bound(r[0]), WINDOW_LO + 0x2000) >= 0x1000 && !Has(r, WINDOW_LO + 0x2000)
  {
    var r := [Entry(WINDOW_LO, 0x1000, 0)];
    assert r[1..] == [];
  }

  /** In a map of whole pages every block starts at a page. */
  lemma PageWiseAligned(es: seq<Entry>, k: nat)
    requires Normal(es) && PageWise(es) && k < |es|
    ensures es[k].A % 0x1000 == 0
  {
    var a := es[k].A;
    assert es[k].Covers(a) && Has(es, a);
    NothingBefore(es, k);
    SamePageBefore(a);
  }

  lemma SamePageBefore(a: nat)
    ensures a % 0x1000 != 0 ==> (a - 1) / 0x1000 == a / 0x1000
  {
  }

  /** The byte before a block of a normal map is not in the map. */
  lemma NothingBefore(es: seq<Entry>, k: nat)
    requires Normal(es) && k < |es|
    ensures !Has(es, es[k].A - 1)
  {
    forall j | 0 <= j < |es| ensures !es[j].Covers(es[k].A - 1) {
      assert j < k ==> es[j].A + es[j].S < es[k].A;
      assert k < j ==> es[k].A + es[k].S < es[j].A;
    }
  }
  // ---------------------------------------------------------------- a whole allocation

  const MEM_RESERVE: nat := 1
  const MEM_COMMIT: nat := 2
  const MEM_UNCOMMIT: nat := 4
  const MEM_FREE: nat := 8

  /** `option & bit`. */
  predicate Asks(option: nat, bit: nat) {
    bit > 0 && option / bit % 2 == 1
  }

  /** The bits of a request that callers set. */
  lemma OptionBits(option: nat)
    ensures Asks(option, MEM_RESERVE) <==> option % 2 == 1
    ensures Asks(option, MEM_COMMIT) <==> option / 2 % 2 == 1
    ensures Asks(option, MEM_UNCOMMIT) <==> option / 2 / 2 % 2 == 1
    ensures Asks(option, MEM_FREE) <==> option / 2 / 2 / 2 % 2 == 1
  {
    Halves(option);
  }

  lemma Halves(n: nat)
    ensures n / 2 / 2 == n / 4 && n / 4 / 2 == n / 8
  {
  }

  /** What an allocation leaves: reserving moves the range from free to reserved space, freeing moves it back,
      committing sets the protection of exactly its bytes, uncommitting and freeing take it; and the frames of the pages
      that were committed there are free again. All else is as it was. */
  ghost predicate Allocated(s: State, t: State, root: nat, lo: nat, hi: nat, option: nat, protect: nat) {
    && (forall x :: Has(t.f, x) <==> if lo <= x < hi && Asks(option, MEM_FREE) then true
                                     else Has(s.f, x) && !(lo <= x < hi && Asks(option, MEM_RESERVE)))
    && (forall x :: Has(t.r, x) <==> if lo <= x < hi && Asks(option, MEM_FREE) then false
                                     else Has(s.r, x) || (lo <= x < hi && Asks(option, MEM_RESERVE)))
    && (forall x :: At(t.c, x) == if !(lo <= x < hi) then At(s.c, x)
                                  else if Asks(option, MEM_UNCOMMIT) || Asks(option, MEM_FREE) then None
                                  else if Asks(option, MEM_COMMIT) then Some(protect) else At(s.c, x))
    && Released(s.m, s.frames, t.m, t.frames, root, Dropped(s.c, lo, hi, option))
  }

  /** The pages that an allocation unmaps. */
  ghost function Dropped(c: seq<Entry>, lo: nat, hi: nat, option: nat): iset<nat> {
    if Asks(option, MEM_COMMIT) && (Asks(option, MEM_UNCOMMIT) || Asks(option, MEM_FREE)) then PagesFrom(lo, hi)
    else if Asks(option, MEM_COMMIT) || Asks(option, MEM_UNCOMMIT) || Asks(option, MEM_FREE) then Committed(c, lo, hi)
    else iset{}
  }

  /** The four steps of `NtAllocateVirtualMemory`, each done just when it is asked for. */
  ghost predicate FirstSteps(s0: State, s1: State, s2: State, root: nat, lo: nat, hi: nat, option: nat, protect: nat)
    requires lo < hi
  {
    && (if Asks(option, MEM_RESERVE) then Reserves(s0, s1, lo, hi) else s1 == s0)
    && (if Asks(option, MEM_COMMIT) then Commits(s1, s2, root, lo, hi, protect) else s2 == s1)
  }

  ghost predicate LastSteps(s2: State, s3: State, s4: State, root: nat, lo: nat, hi: nat, option: nat) {
    && (if Asks(option, MEM_UNCOMMIT) then Uncommits(s2, s3, root, lo, hi) else s3 == s2)
    && (if Asks(option, MEM_FREE) then Frees(s3, s4, root, lo, hi) else s4 == s3)
  }

  ghost predicate Steps(s0: State, s1: State, s2: State, s3: State, s4: State, root: nat, lo: nat, hi: nat, option: nat,
      protect: nat)
    requires lo < hi
  {
    FirstSteps(s0, s1, s2, root, lo, hi, option, protect) && LastSteps(s2, s3, s4, root, lo, hi, option)
  }

  ghost function Gone(asked: bool, c: seq<Entry>, lo: nat, hi: nat): iset<nat> {
    if asked then Committed(c, lo, hi) else iset{}
  }

  lemma {:induction false} AfterCommit(c: seq<Entry>, lo: nat, hi: nat, protect: nat)
    requires Range(lo, hi) && CommitMap(c) && WINDOW_LO <= lo && hi <= WINDOW_HI
    ensures CommitMap(Set(c, lo, hi, protect)) && Committed(Set(c, lo, hi, protect), lo, hi) == PagesFrom(lo, hi)
    ensures CommitMap(Clear(c, lo, hi)) && Committed(Clear(c, lo, hi), lo, hi) == iset{}
    ensures Committed(c, lo, hi) <= PagesFrom(lo, hi)
    ensures forall x :: At(Set(c, lo, hi, protect), x) == if lo <= x < hi then Some(protect) else At(c, x)
    ensures forall x :: At(Clear(c, lo, hi), x) == if lo <= x < hi then None else At(c, x)
  {
    SetTiled(c, lo, hi, protect, WINDOW_LO, WINDOW_HI);
    ClearMap(c, lo, hi);
    hide Set, Clear, At, Tiled, Has;
    forall x ensures At(Set(c, lo, hi, protect), x) == if lo <= x < hi then Some(protect) else At(c, x) {
      SetAt(c, lo, hi, protect, x);
    }
    forall x ensures At(Clear(c, lo, hi), x) == if lo <= x < hi then None else At(c, x) {
      ClearAt(c, lo, hi, x);
    }
    forall v: nat | lo <= v < hi ensures Has(Set(c, lo, hi, protect), v) && !Has(Clear(c, lo, hi), v) {
      AtHas(Set(c, lo, hi, protect), v);
      AtHas(Clear(c, lo, hi), v);
    }
  }

  /** Each step releases the pages that are committed when it is taken. */
  lemma StepsRelease(s0: State, s1: State, s2: State, s3: State, s4: State, root: nat, lo: nat, hi: nat, option: nat,
      protect: nat)
    requires lo < hi && Steps(s0, s1, s2, s3, s4, root, lo, hi, option, protect)
    ensures Released(s0.m, s0.frames, s4.m, s4.frames, root,
                     Gone(Asks(option, MEM_COMMIT), s1.c, lo, hi) + Gone(Asks(option, MEM_UNCOMMIT), s2.c, lo, hi) +
                     Gone(Asks(option, MEM_FREE), s3.c, lo, hi))
  {
    NothingReleased(s1.m, s1.frames, root);
    NothingReleased(s2.m, s2.frames, root);
    NothingReleased(s3.m, s3.frames, root);
    hide Released, Committed, Asks;
    var a := Gone(Asks(option, MEM_COMMIT), s1.c, lo, hi);
    var b := Gone(Asks(option, MEM_UNCOMMIT), s2.c, lo, hi);
    var c := Gone(Asks(option, MEM_FREE), s3.c, lo, hi);
    ReleasedTwice(s1.m, s1.frames, s2.m, s2.frames, s3.m, s3.frames, root, a, b);
    ReleasedTwice(s1.m, s1.frames, s3.m, s3.frames, s4.m, s4.frames, root, a + b, c);
  }

  lemma StepsDrop(s0: State, s1: State, s2: State, s3: State, s4: State, root: nat, lo: nat, hi: nat, option: nat,
      protect: nat)
    requires Range(lo, hi) && WINDOW_LO <= lo && hi <= WINDOW_HI && CommitMap(s0.c)
    requires Steps(s0, s1, s2, s3, s4, root, lo, hi, option, protect)
    ensures Gone(Asks(option, MEM_COMMIT), s1.c, lo, hi) + Gone(Asks(option, MEM_UNCOMMIT), s2.c, lo, hi) +
            Gone(Asks(option, MEM_FREE), s3.c, lo, hi) == Dropped(s0.c, lo, hi, option)
    ensures forall x :: At(s4.c, x) == if !(lo <= x < hi) then At(s0.c, x)
                                       else if Asks(option, MEM_UNCOMMIT) || Asks(option, MEM_FREE) then None
                                       else if Asks(option, MEM_COMMIT) then Some(protect) else At(s0.c, x)
  {
    hide Released, Asks, At, Committed, Set, Clear, CommitMap, PagesFrom, Range, With, Without;
    AfterCommit(s0.c, lo, hi, protect);
    AfterCommit(s2.c, lo, hi, protect);
    AfterCommit(s3.c, lo, hi, protect);
  }

  /** What the steps come to. */
  lemma StepsMean(s0: State, s1: State, s2: State, s3: State, s4: State, root: nat, lo: nat, hi: nat, option: nat,
      protect: nat)
    requires Range(lo, hi) && WINDOW_LO <= lo && hi <= WINDOW_HI && CommitMap(s0.c)
    requires Steps(s0, s1, s2, s3, s4, root, lo, hi, option, protect)
    ensures Allocated(s0, s4, root, lo, hi, option, protect)
  {
    StepsRelease(s0, s1, s2, s3, s4, root, lo, hi, option, protect);
    StepsDrop(s0, s1, s2, s3, s4, root, lo, hi, option, protect);
    hide Released, Dropped, At, Has, Set, Clear, Asks;
  }
  // ---------------------------------------------------------------- when a request is granted

  /** A range whose bytes are all reserved does not start beyond the block found for it. */
  lemma InsideNotBeyond(es: seq<Entry>, lo: nat, hi: nat)
    requires Normal(es) && lo < hi && AllIn(es, lo, hi)
    ensures NotBeyond(es, lo)
  {
    NormalSorted(es);
    FloorHolds(es, Rank(es, lo + 1), lo, hi);
  }

  /** The test of COMMIT and UNCOMMIT: the range is reserved, or starts beyond the end of the block found for it. */
  ghost predicate Passes(r: seq<Entry>, lo: nat, hi: nat) {
    AllIn(r, lo, hi) || !NotBeyond(r, lo)
  }

  /** Reserving needs a free range, committing and uncommitting one that passes the test, freeing a reserved one;
      reserving gives what the later steps need. */
  ghost predicate Granted(s: State, lo: nat, hi: nat, option: nat) {
    if Asks(option, MEM_RESERVE) then AllIn(s.f, lo, hi)
    else
      && (Asks(option, MEM_COMMIT) || Asks(option, MEM_UNCOMMIT) ==> Passes(s.r, lo, hi))
      && (Asks(option, MEM_FREE) ==> AllIn(s.r, lo, hi))
  }

  /** Such a request is refused at its last step only: FREE makes the right test, but COMMIT or UNCOMMIT came before
      it. */
  ghost predicate HalfDone(s: State, lo: nat, option: nat) {
    && Asks(option, MEM_FREE) && !Asks(option, MEM_RESERVE) && (Asks(option, MEM_COMMIT) || Asks(option, MEM_UNCOMMIT))
    && !NotBeyond(s.r, lo)
  }

  /** What a refused request leaves: what it would have done without FREE, or nothing. */
  ghost predicate Refuses(s: State, t: State, root: nat, lo: nat, hi: nat, option: nat, protect: nat) {
    if HalfDone(s, lo, option) then Allocated(s, t, root, lo, hi, option - MEM_FREE, protect) else t == s
  }

  lemma WithoutFree(option: nat)
    requires Asks(option, MEM_FREE)
    ensures option >= MEM_FREE && !Asks(option - MEM_FREE, MEM_FREE)
    ensures forall bit :: bit == MEM_RESERVE || bit == MEM_COMMIT || bit == MEM_UNCOMMIT ==>
      (Asks(option - MEM_FREE, bit) <==> Asks(option, bit))
  {
    var q, r := option / 8, option % 8;
    AsksBits(q, r);
    var p := q / 2;
    assert q == 2 * p + 1;
    AsksBits(2 * p, r);
    Even(p);
    assert option == 8 * q + r && option - MEM_FREE == 8 * (2 * p) + r;
    hide Asks;
  }

  /** Each bit of an option. */
  lemma AsksBits(q: nat, r: nat)
    requires r < 8
    ensures var option := 8 * q + r;
            && (Asks(option, MEM_FREE) <==> q % 2 == 1) && (Asks(option, MEM_UNCOMMIT) <==> r / 4 % 2 == 1)
            && (Asks(option, MEM_COMMIT) <==> r / 2 % 2 == 1) && (Asks(option, MEM_RESERVE) <==> r % 2 == 1)
  {
    Octal(q, r);
    Parity(q, r / 4);
    Parity(2 * q, r / 2);
    Parity(4 * q, r);
  }

  lemma Octal(q: nat, r: nat)
    requires r < 8
    ensures (8 * q + r) / 8 == q && (8 * q + r) / 4 == 2 * q + r / 4 && (8 * q + r) / 2 == 2 * (2 * q) + r / 2
    ensures 8 * q + r == 2 * (4 * q) + r && (8 * q + r) / 1 == 8 * q + r
  {
  }

  /** The range of a commit lies within the windows, unless the request is refused. */
  ghost predicate StaysBelow(r: seq<Entry>, lo: nat, hi: nat) {
    NotBeyond(r, lo) || hi <= WINDOW_HI
  }

  lemma PassesInWindow(s: State, root: nat, lo: nat, hi: nat)
    requires Sound(s, root) && Sorted(s.r) && Normal(s.r) && lo < hi && Passes(s.r, lo, hi)
    ensures WINDOW_LO <= lo && (StaysBelow(s.r, lo, hi) <==> hi <= WINDOW_HI)
    ensures AllIn(s.r, lo, hi) ==> hi <= WINDOW_HI
  {
    if AllIn(s.r, lo, hi) {
      ReservedInWindow(s, root, lo, hi);
    } else {
      var b := s.r[Rank(s.r, lo + 1) - 1];
      assert b.Covers(b.A) && Has(s.r, b.A);
    }
    if AllIn(s.r, lo, hi) { InsideNotBeyond(s.r, lo, hi); }
  }

  ghost predicate HoldsFree(f: seq<Entry>, size: nat, y: nat) {
    AllIn(f, y, y + size)
  }

  ghost predicate NoneFits(f: seq<Entry>, size: nat) {
    forall y: nat :: !HoldsFree(f, size, y)
  }

  /** y is the lowest address from which size free bytes lie together. */
  ghost predicate Lowest(f: seq<Entry>, size: nat, y: nat) {
    HoldsFree(f, size, y) && forall z: nat :: HoldsFree(f, size, z) ==> y <= z
  }

  /** What may be relied on once the first step was taken. */
  lemma AfterReserve(s: State, t: State, root: nat, lo: nat, hi: nat, option: nat)
    requires Sound(s, root) && Sound(t, root) && Normal(t.r) && Range(lo, hi)
    requires if Asks(option, MEM_RESERVE) then Reserves(s, t, lo, hi) else t == s
    requires Asks(option, MEM_COMMIT) && !Asks(option, MEM_RESERVE) ==> StaysBelow(s.r, lo, hi)
    ensures Asks(option, MEM_RESERVE) ==> AllIn(t.r, lo, hi)
    ensures Asks(option, MEM_COMMIT) ==> StaysBelow(t.r, lo, hi)
  {
    if Asks(option, MEM_RESERVE) { InsideNotBeyond(t.r, lo, hi); }
  }

  lemma AfterFirst(s0: State, s1: State, s2: State, root: nat, lo: nat, hi: nat, option: nat, protect: nat)
    requires Range(lo, hi) && FirstSteps(s0, s1, s2, root, lo, hi, option, protect)
    ensures Asks(option, MEM_RESERVE) ==> AllIn(s2.r, lo, hi)
    ensures !Asks(option, MEM_RESERVE) ==> s2.r == s0.r && (!Asks(option, MEM_COMMIT) ==> s2 == s0)
  {
  }

  /** Uncommitting alone, wherever. */
  lemma OnlyUncommits(s: State, t: State, root: nat, lo: nat, hi: nat, option: nat, protect: nat)
    requires CommitMap(s.c) && Range(lo, hi) && Uncommits(s, t, root, lo, hi)
    requires Asks(option, MEM_UNCOMMIT)
    requires !Asks(option, MEM_RESERVE) && !Asks(option, MEM_COMMIT) && !Asks(option, MEM_FREE)
    ensures Allocated(s, t, root, lo, hi, option, protect)
  {
    forall x ensures At(t.c, x) == if lo <= x < hi then None else At(s.c, x) {
      ClearAt(s.c, lo, hi, x);
    }
    hide Released, At, Has, Clear, Asks, Committed;
  }

  /** The steps together, for whatever was asked. */
  lemma AllSteps(s0: State, s1: State, s2: State, s3: State, s4: State, root: nat, lo: nat, hi: nat, option: nat,
      protect: nat)
    requires Sound(s0, root) && Normal(s0.r) && Range(lo, hi) && Granted(s0, lo, hi, option)
    requires Asks(option, MEM_COMMIT) && !Asks(option, MEM_RESERVE) ==> StaysBelow(s0.r, lo, hi)
    requires FirstSteps(s0, s1, s2, root, lo, hi, option, protect) && LastSteps(s2, s3, s4, root, lo, hi, option)
    ensures Allocated(s0, s4, root, lo, hi, option, protect)
  {
    NormalSorted(s0.r);
    if Asks(option, MEM_RESERVE) || (Asks(option, MEM_FREE) && AllIn(s0.r, lo, hi)) {
      assert Has(s0.f, lo) || Has(s0.r, lo);
      assert Has(s0.f, hi - 1) || Has(s0.r, hi - 1);
      StepsMean(s0, s1, s2, s3, s4, root, lo, hi, option, protect);
    } else if Asks(option, MEM_COMMIT) {
      PassesInWindow(s0, root, lo, hi);
      StepsMean(s0, s1, s2, s3, s4, root, lo, hi, option, protect);
    } else if Asks(option, MEM_UNCOMMIT) {
      OnlyUncommits(s0, s4, root, lo, hi, option, protect);
    } else {
      NothingReleased(s0.m, s0.frames, root);
    }
  }

  /** The steps of a request that is refused at the last one. */
  lemma AllButFree(s0: State, s1: State, s2: State, s3: State, root: nat, lo: nat, hi: nat, option: nat, protect: nat)
    requires Sound(s0, root) && Normal(s0.r) && Range(lo, hi) && HalfDone(s0, lo, option)
    requires Asks(option, MEM_COMMIT) ==> StaysBelow(s0.r, lo, hi)
    requires FirstSteps(s0, s1, s2, root, lo, hi, option, protect)
    requires if Asks(option, MEM_UNCOMMIT) then Uncommits(s2, s3, root, lo, hi) else s3 == s2
    ensures option >= MEM_FREE && Allocated(s0, s3, root, lo, hi, option - MEM_FREE, protect)
  {
    WithoutFree(option);
    hide Asks, Reserves, Commits, Uncommits, Sound, Normal, StaysBelow, NotBeyond, AllIn, Allocated;
    AllSteps(s0, s1, s2, s3, s3, root, lo, hi, option - MEM_FREE, protect);
  }
}
