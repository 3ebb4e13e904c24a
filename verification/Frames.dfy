/** Who owns which physical byte: the free map, the page tables, or a page of the dynamic windows. */
module Frames {
  import opened Intervals
  import opened Physical
  import opened PageWalk
  import opened Paging

  /** The windows in which the page fault handler maps frames of its own: dynamic space, then stacks. */
  const WINDOW_LO: nat := 0xFFFF_9000_0000_0000
  const DYNAMIC_HI: nat := 0xFFFF_E000_0000_0000
  const WINDOW_HI: nat := 0xFFFF_F000_0000_0000
  const HIGH: nat := 0xFFFF_0000_0000_0000

  /** The 4K page of v, as an address of the upper half. */
  function Base(v: nat): nat {
    HIGH + 0x1000 * PageOf(v, 0)
  }

  lemma SameBase(v: nat, w: nat)
    ensures Same(v, w, 3) <==> Base(v) == Base(w)
  {
    SamePage(v, w, 0);
  }

  lemma BaseOfWindow(v: nat)
    requires WINDOW_LO <= v < WINDOW_HI
    ensures Base(v) == v - v % 0x1000 && Base(Base(v)) == Base(v) && WINDOW_LO <= Base(v) < WINDOW_HI
      && Base(v) % 0x1000 == 0
  {
    var u := v - HIGH;
    assert v % SPACE == u;
    var q := u / 0x1000;
    assert u == 0x1000 * q + u % 0x1000;
    assert Base(v) - HIGH == 0x1000 * q;
    assert (HIGH + 0x1000 * q) % SPACE == 0x1000 * q;
  }

  ghost predicate InWindow(v: nat) {
    WINDOW_LO <= v < WINDOW_HI && v % 0x1000 == 0
  }

  lemma WindowBase(v: nat)
    requires InWindow(v)
    ensures Base(v) == v
  {
    BaseOfWindow(v);
  }

  /** The byte x lies in the frame of a window page. */
  ghost predicate Used(m: Tables, root: nat, x: int) {
    exists v: nat :: InWindow(v) && Holding(m, root, v, x)
  }

  ghost predicate Holding(m: Tables, root: nat, v: nat, x: int) {
    match Look(m, root, v)
    case None => false
    case Some(p) => p.at <= x < p.at + 0x1000
  }

  /** A frame of a window page: one 4K frame, within reach of a page table entry, neither free nor a table. */
  ghost predicate GoodFrame(m: Tables, free: seq<Entry>, p: Page) {
    && p.size == 0 && p.at % 0x1000 == 0 && p.at + 0x1000 <= REACH && p.at !in m
    && (forall x :: p.at <= x < p.at + 0x1000 ==> !Has(free, x))
  }

  ghost predicate SameFrames(p: Option<Page>, q: Option<Page>) {
    p.Some? && q.Some? && p.value.at == q.value.at
  }

  /** Window pages own their frames, each its own. */
  ghost predicate Owned(m: Tables, root: nat, free: seq<Entry>) {
    && InReach(free)
    && (forall v: nat :: InWindow(v) && Look(m, root, v).Some? ==> GoodFrame(m, free, Look(m, root, v).value))
    && (forall v: nat, w: nat :: InWindow(v) && InWindow(w) && SameFrames(Look(m, root, v), Look(m, root, w)) ==>
      v == w)
  }

  /** No byte was lost and none was made up. */
  ghost predicate Conserved(m: Tables, free: seq<Entry>, m': Tables, free': seq<Entry>, root: nat) {
    forall x :: Has(free', x) || InTable(m', x) || Used(m', root, x) <==>
      Has(free, x) || InTable(m, x) || Used(m, root, x)
  }

  // ---------------------------------------------------------------- a page fault

  /** The frame f as a 4K page with the rights of the options. */
  function Small(f: nat, options: nat): Page {
    Page(f, 0, options / 2 % 2 == 1, options / 4 % 2 == 1)
  }

  ghost predicate MapsOne(m: Tables, m': Tables, root: nat, b: nat, p: Page) {
    forall v: nat :: InWindow(v) ==> Look(m', root, v) == if v == b then Some(p) else Look(m, root, v)
  }

  /** Mapping a 4K page around w is, among window pages, mapping the one page w lies in. */
  lemma MapsWindow(m: Tables, m': Tables, root: nat, w: nat, f: nat, options: nat)
    requires WINDOW_LO <= w < WINDOW_HI && MapsPage(m, m', root, w, 0, f, options) && f % 0x1000 == 0
    ensures MapsOne(m, m', root, Base(w), Small(f, options)) && InWindow(Base(w))
  {
    BaseOfWindow(w);
    hide Base, PageOf, Same, Look, Idx, MapsPage, Small;
    forall v: nat | InWindow(v)
      ensures Look(m', root, v) == if v == Base(w) then Some(Small(f, options)) else Look(m, root, v)
    {
      WindowBase(v);
      SameBase(v, w);
      MapsPageAt(m, m', root, w, 0, f, options, v);
      TargetSmall(f, options, v);
    }
  }

  /** `MapsPage` at one address. */
  lemma MapsPageAt(m: Tables, m': Tables, root: nat, w: nat, size: nat, f: nat, options: nat, v: nat)
    requires size <= 2 && MapsPage(m, m', root, w, size, f, options)
    ensures Look(m', root, v) == if Same(v, w, 3 - size) then Some(Target(f, size, options, v)) else Look(m, root, v)
  {
    hide Look, Same, Target;
  }

  lemma TargetSmall(f: nat, options: nat, v: nat)
    requires f % 0x1000 == 0 && v % 0x1000 == 0
    ensures Target(f, 0, options, v) == Small(f, options)
  {
  }

  /** Tables added out of the free map take nothing from the window pages. */
  lemma GrownOwned(m: Tables, free: seq<Entry>, m': Tables, free': seq<Entry>, p: Page)
    requires GoodFrame(m, free, p) && Grown(m, free, m', free')
    ensures GoodFrame(m', free', p)
  {
    assert Frame(p.at) == p.at;
    assert !InTable(m, p.at) && !Has(free, p.at);
    assert !InTable(m', p.at);
  }

  lemma FaultOwned(m: Tables, free: seq<Entry>, free1: seq<Entry>, m': Tables, free': seq<Entry>, root: nat, b: nat,
      p: Page)
    requires Owned(m, root, free) && Separate(m, free) && InWindow(b) && Look(m, root, b).None? && p.size == 0
    requires var f := p.at; f % 0x1000 == 0 && AllIn(free, f, f + 0x1000) && Without(free, free1, f, f + 0x1000)
    requires Grown(m, free1, m', free') && MapsOne(m, m', root, b, p)
    ensures Owned(m', root, free')
  {
    var f := p.at;
    assert Has(free, f) && Has(free, f + 0xFFF);
    forall x | Has(free', x) ensures Has(free, x) && !(f <= x < f + 0x1000) {}
    forall v: nat | InWindow(v) && Look(m, root, v).Some?
      ensures GoodFrame(m', free', Look(m, root, v).value) && Look(m, root, v).value.at != f
    {
      var q := Look(m, root, v).value;
      assert GoodFrame(m, free, q);
      assert q.at == f ==> !Has(free, q.at);
      GrownOwned(m, free1, m', free', q);
    }
    NewFrame(m, free, free1, m', free', p);
  }

  lemma NewFrame(m: Tables, free: seq<Entry>, free1: seq<Entry>, m': Tables, free': seq<Entry>, p: Page)
    requires var f := p.at; f % 0x1000 == 0 && AllIn(free, f, f + 0x1000) && Without(free, free1, f, f + 0x1000)
    requires Separate(m, free) && InReach(free) && Grown(m, free1, m', free')
      && p.size == 0
    ensures GoodFrame(m', free', p)
  {
    var f := p.at;
    assert Has(free, f) && Has(free, f + 0xFFF);
    assert Frame(f) == f;
    assert !InTable(m, f) && !Has(free1, f);
    assert !InTable(m', f);
  }

  lemma FaultConserved(m: Tables, free: seq<Entry>, free1: seq<Entry>, m': Tables, free': seq<Entry>, root: nat, b: nat,
      p: Page)
    requires InWindow(b) && Look(m, root, b).None?
    requires AllIn(free, p.at, p.at + 0x1000) && Without(free, free1, p.at, p.at + 0x1000)
    requires Grown(m, free1, m', free') && MapsOne(m, m', root, b, p)
    ensures Conserved(m, free, m', free', root)
  {
    var f := p.at;
    forall x ensures Used(m', root, x) <==> Used(m, root, x) || f <= x < f + 0x1000 {
      if Used(m', root, x) {
        var v: nat :| InWindow(v) && Holding(m', root, v, x);
        assert v != b ==> Holding(m, root, v, x);
      }
      if Used(m, root, x) {
        var v: nat :| InWindow(v) && Holding(m, root, v, x);
        assert Holding(m', root, v, x);
      }
      if f <= x < f + 0x1000 {
        assert Holding(m', root, b, x);
      }
    }
  }

  /** A fault that maps nothing in the windows, but may have added tables. */
  lemma GrownStillOwned(m: Tables, free: seq<Entry>, m': Tables, free': seq<Entry>, root: nat)
    requires Owned(m, root, free) && Grown(m, free, m', free')
    requires forall v: nat :: InWindow(v) ==> Look(m', root, v) == Look(m, root, v)
    ensures Owned(m', root, free') && Conserved(m, free, m', free', root)
  {
    forall v: nat | InWindow(v) && Look(m', root, v).Some? ensures GoodFrame(m', free', Look(m', root, v).value) {
      GrownOwned(m, free, m', free', Look(m, root, v).value);
    }
    forall x ensures Used(m', root, x) <==> Used(m, root, x) {
      if Used(m', root, x) {
        var v: nat :| InWindow(v) && Holding(m', root, v, x);
        assert Holding(m, root, v, x);
      }
      if Used(m, root, x) {
        var v: nat :| InWindow(v) && Holding(m, root, v, x);
        assert Holding(m', root, v, x);
      }
    }
  }

  /** A 1G page of the direct map lies outside the windows. */
  lemma StaticElsewhere(m: Tables, m': Tables, root: nat, w: nat, addr: nat, options: nat)
    requires 0xFFFF_8000_0000_0000 <= w < WINDOW_LO && MapsPage(m, m', root, w, 2, addr, options)
    ensures forall v: nat :: InWindow(v) ==> Look(m', root, v) == Look(m, root, v)
  {
    hide Look, Same, MapsPage;
    forall v: nat | InWindow(v) ensures Look(m', root, v) == Look(m, root, v) {
      StaticApart(v, w);
      MapsPageAt(m, m', root, w, 2, addr, options, v);
    }
  }

  lemma StaticApart(v: nat, w: nat)
    requires HIGH <= w < WINDOW_LO <= v < HIGH + SPACE
    ensures !Same(v, w, 1)
  {
    GigaPage(v);
    GigaPage(w);
    SamePage(v, w, 2);
    hide PageOf, Same;
    var a, b := v - HIGH, w - HIGH;
    assert b < 0x4000_0000 * 0x2_4000 <= a;
  }

  lemma GigaPage(v: nat)
    requires HIGH <= v < HIGH + SPACE
    ensures PageOf(v, 2) == (v - HIGH) / 0x4000_0000
  {
    assert v % SPACE == v - HIGH;
  }
}
